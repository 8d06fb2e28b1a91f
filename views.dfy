/** The two handlers of the users blueprint: adding a user to the table and
    listing the table sorted on one column. The table is the sequence of
    committed rows; a commit is an atomic append. */
module Views {
  import opened Basics
  import opened Models
  import opened Ordering
  import EmailPattern
  import PythonRepr

  /** The `attributes` object of an add-user request once the JSON schema
      has admitted it: three required strings and an optional country. */
  datatype Attributes = Attributes(firstName: string, lastName: string,
                                   emailAddress: string, country: Option<string>)

  /** What a handler answers: 200 with a body, 400 with an error message, or
      500 for an exception no handler catches. */
  datatype Response<+T> = Success(body: T) | BadRequest(error: string) | InternalServerError

  /** `repr` of `user_attrs.get('country')`: an absent country shows as None. */
  function CountryRepr(country: Option<string>): string {
    if country.Some? then PythonRepr.Repr(country.value) else "None"
  }

  function InvalidCountryMessage(country: Option<string>): string {
    CountryRepr(country) + " is not a valid country, please choose either 'Ireland' or 'United States'"
  }

  function NoFieldMessage(name: string): string {
    "User object has no field " + PythonRepr.Repr(name) + "."
  }

  /** The country column's conversion when the row is written: an absent
      country is NULL, a present one must be the value of a member. */
  function CoerceCountry(country: Option<string>): (r: Result<Option<Country>>)
    ensures r.Ok? <==> (country.None? || country.value == "Ireland" || country.value == "United States")
    ensures r.Ok? ==> (r.value.Some? <==> country.Some?)
    ensures r.Ok? && r.value.Some? ==> CountryValue(r.value.value) == country.value
  {
    if country.None? then Ok(None)
    else
      var c := DecodeCountry(country.value);
      if c.Some? then Ok(c) else Err("invalid country")
  }

  predicate HasId(rows: seq<User>, id: string) {
    exists i :: 0 <= i < |rows| && rows[i].id == id
  }

  ghost predicate IdsUnique(rows: seq<User>) {
    forall i, j :: 0 <= i < j < |rows| ==> rows[i].id != rows[j].id
  }

  /** The user table. */
  class UserTable {
    var rows: seq<User>

    /** Every row has its own id and an email address the validator accepts. */
    ghost predicate Valid()
      reads this
    {
      IdsUnique(rows) && forall i :: 0 <= i < |rows| ==> EmailPattern.RegexMatch(rows[i].emailAddress)
    }

    constructor ()
      ensures Valid() && rows == []
    {
      rows := [];
    }

    /** `add_user`. `newId` stands for the generated identifier. The email is
        validated when the row object is built, before anything is written;
        the country is converted when the row is written, and a write that
        fails (an unknown country, or an id already present) is answered
        with the country message. */
    method AddUser(attrs: Attributes, newId: string) returns (resp: Response<Attributes>)
      requires Valid()
      modifies this
      ensures Valid()
      ensures !EmailPattern.RegexMatch(attrs.emailAddress) ==>
                resp == BadRequest(EmailPattern.MismatchMessage)
      ensures EmailPattern.RegexMatch(attrs.emailAddress) && (CoerceCountry(attrs.country).Err? || HasId(old(rows), newId)) ==>
                resp == BadRequest(InvalidCountryMessage(attrs.country))
      ensures resp.Success? <==>
                EmailPattern.RegexMatch(attrs.emailAddress) && CoerceCountry(attrs.country).Ok? && !HasId(old(rows), newId)
      ensures resp.Success? ==>
                && resp.body == attrs
                && rows == old(rows) + [User(newId, attrs.firstName, attrs.lastName, attrs.emailAddress,
                                             CoerceCountry(attrs.country).value)]
      ensures !resp.Success? ==> rows == old(rows)
    {
      var email := EmailPattern.ValidateEmail(attrs.emailAddress);
      if email.Err? {
        resp := BadRequest(email.error);
        return;
      }
      var country := CoerceCountry(attrs.country);
      if country.Err? || HasId(rows, newId) {
        resp := BadRequest(InvalidCountryMessage(attrs.country));
        return;
      }
      rows := rows + [User(newId, attrs.firstName, attrs.lastName, email.value, country.value)];
      resp := Success(attrs);
    }
  }

  /** The sort field: `first_name` when the parameter is absent or empty. */
  function SortName(sort: Option<string>): string {
    if sort.None? || sort.value == "" then "first_name" else sort.value
  }

  /** Serialises every row, in order; None when some row cannot be. */
  function SerialiseAll(us: seq<User>): (r: Option<seq<map<string, string>>>)
    ensures r.Some? <==> forall i :: 0 <= i < |us| ==> us[i].country.Some?
    ensures r.Some? ==> |r.value| == |us| && forall i :: 0 <= i < |us| ==> Serialise(us[i]) == Some(r.value[i])
  {
    if us == [] then Some([])
    else
      var head, tail := Serialise(us[0]), SerialiseAll(us[1..]);
      assert forall i :: 1 <= i < |us| ==> us[i] == us[1..][i - 1];
      if head.Some? && tail.Some? then Some([head.value] + tail.value) else None
  }

  /** Reads a list of serialised users back. */
  function DeserialiseAll(ms: seq<map<string, string>>): (r: Option<seq<User>>)
    ensures r.Some? ==> |r.value| == |ms| && forall i :: 0 <= i < |ms| ==> Deserialise(ms[i]) == Some(r.value[i])
  {
    if ms == [] then Some([])
    else
      var head, tail := Deserialise(ms[0]), DeserialiseAll(ms[1..]);
      if head.Some? && tail.Some? then
        assert forall i :: 1 <= i < |ms| ==> ms[i] == ms[1..][i - 1];
        Some([head.value] + tail.value)
      else None
  }

  /** A list holding, position by position, the serialisations of some
      rows reads back to exactly those rows. */
  lemma {:induction false} ReadBackAll(us: seq<User>, ms: seq<map<string, string>>)
    requires |ms| == |us| && forall i :: 0 <= i < |us| ==> Serialise(us[i]) == Some(ms[i])
    ensures DeserialiseAll(ms) == Some(us)
  {
    if us != [] {
      assert forall i :: 0 <= i < |us| - 1 ==> Serialise(us[1..][i]) == Some(ms[1..][i]) by {
        assert forall i :: 0 <= i < |us| - 1 ==> us[1..][i] == us[i + 1] && ms[1..][i] == ms[i + 1];
      }
      ReadBackAll(us[1..], ms[1..]);
      SerialiseRoundTrip(us[0]);
      assert us == [us[0]] + us[1..];
    }
  }

  /** A reordering of the rows has the same length, and every row has a
      country in it exactly when every row has one in the original. */
  lemma PermutationKeepsCountries(o: seq<User>, t: seq<User>)
    requires multiset(o) == multiset(t)
    ensures |o| == |t|
    ensures (forall i :: 0 <= i < |o| ==> o[i].country.Some?) <==> (forall i :: 0 <= i < |t| ==> t[i].country.Some?)
  {
    assert |o| == |multiset(o)| == |multiset(t)| == |t|;
    assert forall i :: 0 <= i < |t| ==> t[i] in multiset(o);
    assert forall i :: 0 <= i < |o| ==> o[i] in multiset(t);
  }

  /** The rows of `table` serialised in descending order of `col`; None
      when some row cannot be serialised. */
  function ListDesc(table: seq<User>, col: Column): (r: Option<seq<map<string, string>>>)
    ensures r.Some? <==> forall i :: 0 <= i < |table| ==> table[i].country.Some?
    ensures r.Some? ==>
              && DeserialiseAll(r.value).Some?
              && IsDescOrdering(DeserialiseAll(r.value).value, table, col)
              && |r.value| == |table|
              && forall i :: 0 <= i < |r.value| ==>
                   && r.value[i].Keys == ColumnNames
                   && Serialise(DeserialiseAll(r.value).value[i]) == Some(r.value[i])
  {
    var ordered := OrderDesc(table, col);
    PermutationKeepsCountries(ordered, table);
    var r := SerialiseAll(ordered);
    if r.Some? then
      ReadBackAll(ordered, r.value);
      r
    else r
  }

  /** `get_users` over the committed rows. */
  function GetUsers(table: seq<User>, sort: Option<string>): (r: Response<seq<map<string, string>>>)
    ensures r.BadRequest? <==> SortName(sort) !in ColumnNames
    ensures r.BadRequest? ==> r.error == NoFieldMessage(SortName(sort))
    ensures r.InternalServerError? <==>
              SortName(sort) in ColumnNames && exists i :: 0 <= i < |table| && table[i].country.None?
    ensures r.Success? ==>
              && ColumnByName(SortName(sort)).Some?
              && DeserialiseAll(r.body).Some?
              && IsDescOrdering(DeserialiseAll(r.body).value, table, ColumnByName(SortName(sort)).value)
              && |r.body| == |table|
              && forall i :: 0 <= i < |r.body| ==>
                   && r.body[i].Keys == ColumnNames
                   && Serialise(DeserialiseAll(r.body).value[i]) == Some(r.body[i])
  {
    var name := SortName(sort);
    match ColumnByName(name)
    case None => BadRequest(NoFieldMessage(name))
    case Some(col) =>
      match ListDesc(table, col)
      case None => InternalServerError
      case Some(body) => Success(body)
  }

  /** An absent or empty sort parameter lists by first name. */
  lemma DefaultSortIsFirstName(table: seq<User>)
    ensures GetUsers(table, None) == GetUsers(table, Some("")) == GetUsers(table, Some("first_name"))
  {
  }

  /** Every row of the table appears in a successful listing, so a row a
      successful add appended is listed afterwards. */
  lemma ListingShowsEveryRow(table: seq<User>, sort: Option<string>, i: nat)
    requires i < |table| && GetUsers(table, sort).Success?
    ensures table[i] in DeserialiseAll(GetUsers(table, sort).body).value
  {
    var listed := DeserialiseAll(GetUsers(table, sort).body).value;
    assert table[i] in multiset(table);
    assert table[i] in multiset(listed);
  }

  /** The rows the handler tests start from. */
  const Bond := User("1", "James", "Bond", "james.bond@mi6.co.uk", Some(UnitedStates))
  const Zodiac := User("2", "Aaron", "Zodiac", "azod@gmail.com", Some(Ireland))

  /** Listing by a column of rows that all have a country succeeds. */
  lemma ListingSucceeds(table: seq<User>, sort: Option<string>)
    requires ColumnByName(SortName(sort)).Some?
    requires forall i :: 0 <= i < |table| ==> table[i].country.Some?
    ensures GetUsers(table, sort).Success?
  {
    assert SortName(sort) in ColumnNames;
  }

  /** A descending ordering of two rows with different keys puts the row
      with the greater key first. */
  lemma TwoRowOrdering(listed: seq<User>, table: seq<User>, col: Column, top: User, bottom: User)
    requires table == [top, bottom] || table == [bottom, top]
    requires !LexLe(SortKey(top, col), SortKey(bottom, col))
    requires IsDescOrdering(listed, table, col)
    ensures listed == [top, bottom]
  {
    LexLeReflexive(SortKey(top, col));
    assert top != bottom;
    assert |listed| == |multiset(table)| == 2;
    var a, b := listed[0], listed[1];
    assert listed == [a, b];
    assert multiset{a, b} == multiset{top, bottom};
    assert multiset{a, b}[top] == 1 && multiset{a, b}[bottom] == 1;
    assert LexLe(SortKey(b, col), SortKey(a, col));
  }

  /** A listing of two rows with different keys lists the row with the
      greater key first, whatever order the table holds them in. */
  lemma TwoRowListing(table: seq<User>, sort: Option<string>, top: User, bottom: User)
    requires table == [top, bottom] || table == [bottom, top]
    requires top.country.Some? && bottom.country.Some?
    requires ColumnByName(SortName(sort)).Some?
    requires !LexLe(SortKey(top, ColumnByName(SortName(sort)).value), SortKey(bottom, ColumnByName(SortName(sort)).value))
    ensures var r := GetUsers(table, sort);
            r.Success? && |r.body| == 2 && Deserialise(r.body[0]) == Some(top) && Deserialise(r.body[1]) == Some(bottom)
  {
    var col := ColumnByName(SortName(sort)).value;
    ListingSucceeds(table, sort);
    var r := GetUsers(table, sort);
    TwoRowOrdering(DeserialiseAll(r.body).value, table, col, top, bottom);
  }

  /** Listing the rows the handler tests start from: by first name (the
      default) James comes first, by last name Aaron does. */
  lemma ExampleListingByFirstName()
    ensures var r := GetUsers([Bond, Zodiac], None);
            r.Success? && |r.body| == 2 && Deserialise(r.body[0]) == Some(Bond) && Deserialise(r.body[1]) == Some(Zodiac)
  {
    assert !LexLe("James", "Aaron");
    TwoRowListing([Bond, Zodiac], None, Bond, Zodiac);
  }

  lemma ExampleListingByLastName()
    ensures var r := GetUsers([Bond, Zodiac], Some("last_name"));
            r.Success? && |r.body| == 2 && Deserialise(r.body[0]) == Some(Zodiac) && Deserialise(r.body[1]) == Some(Bond)
  {
    assert !LexLe("Zodiac", "Bond");
    TwoRowListing([Bond, Zodiac], Some("last_name"), Zodiac, Bond);
  }

  /** The attributes a client sends to add `u`. */
  function AttributesOf(u: User): Attributes
    requires u.country.Some?
  {
    Attributes(u.firstName, u.lastName, u.emailAddress, Some(CountryValue(u.country.value)))
  }

  /** Adding two rows with distinct ids, accepted emails and a country to an
      empty table through the add handler leaves exactly those two rows. */
  method AddTwoUsers(first: User, second: User) returns (table: UserTable)
    requires first.id != second.id
    requires EmailPattern.RegexMatch(first.emailAddress) && EmailPattern.RegexMatch(second.emailAddress)
    requires first.country.Some? && second.country.Some?
    ensures table.rows == [first, second]
  {
    table := new UserTable();
    CountryRoundTrip(first.country.value);
    CountryRoundTrip(second.country.value);
    assert !HasId([], first.id);
    var added := table.AddUser(AttributesOf(first), first.id);
    assert table.rows == [first];
    assert !HasId([first], second.id);
    added := table.AddUser(AttributesOf(second), second.id);
  }

  /** The handler tests end to end: the two users are added through the
      add handler, then listed by the default sort and by last name. */
  method AddTwoThenList() returns (byFirst: Response<seq<map<string, string>>>,
                                   byLast: Response<seq<map<string, string>>>)
    ensures byFirst.Success? && |byFirst.body| == 2
    ensures Deserialise(byFirst.body[0]) == Some(Bond) && Deserialise(byFirst.body[1]) == Some(Zodiac)
    ensures byLast.Success? && |byLast.body| == 2
    ensures Deserialise(byLast.body[0]) == Some(Zodiac) && Deserialise(byLast.body[1]) == Some(Bond)
  {
    EmailPattern.ExampleAcceptedBond();
    EmailPattern.ExampleAcceptedZodiac();
    var table := AddTwoUsers(Bond, Zodiac);
    ExampleListingByFirstName();
    ExampleListingByLastName();
    byFirst := GetUsers(table.rows, None);
    byLast := GetUsers(table.rows, Some("last_name"));
  }

  /** For a plain value (no quote, backslash or control character) the
      messages quote the value in single quotes, as the handler tests
      expect of 'England'; a field name such as `nonexistent_field` is
      quoted the same way. */
  lemma PlainCountryMessage(country: string)
    requires PythonRepr.IsPlain(country)
    ensures InvalidCountryMessage(Some(country))
         == "'" + country + "'" + " is not a valid country, please choose either 'Ireland' or 'United States'"
  {
    PythonRepr.PlainRepr(country);
  }

  lemma PlainNoFieldMessage(name: string)
    requires PythonRepr.IsPlain(name)
    ensures NoFieldMessage(name) == "User object has no field '" + name + "'."
  {
    PythonRepr.PlainRepr(name);
  }

  /** The country message names the submitted value unambiguously: two
      different submissions (an absent country included) never produce the
      same message. */
  lemma CountryMessageInjective(a: Option<string>, b: Option<string>)
    requires InvalidCountryMessage(a) == InvalidCountryMessage(b)
    ensures a == b
  {
    var suffix := " is not a valid country, please choose either 'Ireland' or 'United States'";
    var m := InvalidCountryMessage(a);
    var ra, rb := CountryRepr(a), CountryRepr(b);
    assert m == ra + suffix && m == rb + suffix;
    assert ra == m[..|m| - |suffix|] == rb;
    assert ra[0] == 'N' <==> a.None?;
    assert rb[0] == 'N' <==> b.None?;
    if a.Some? && b.Some? {
      PythonRepr.ReprInjective(a.value, b.value);
    }
  }

  /** The no-field message names the requested field unambiguously. */
  lemma NoFieldMessageInjective(x: string, y: string)
    requires NoFieldMessage(x) == NoFieldMessage(y)
    ensures x == y
  {
    var prefix := "User object has no field ";
    var m := NoFieldMessage(x);
    assert m == prefix + PythonRepr.Repr(x) + "." && m == prefix + PythonRepr.Repr(y) + ".";
    assert PythonRepr.Repr(x) == m[|prefix|..|m| - 1] == PythonRepr.Repr(y);
    PythonRepr.ReprInjective(x, y);
  }
}
