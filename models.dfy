/** The User model: the `Country` enumeration, the five columns of a user
    row, `serialise` and `__repr__`. */
module Models {
  import opened Basics

  /** The enumeration stored through the country column. */
  datatype Country = Ireland | UnitedStates

  /** The enumeration member's value, which is what a client sees. */
  function CountryValue(c: Country): string {
    match c
    case Ireland => "Ireland"
    case UnitedStates => "United States"
  }

  /** `Country(value)`: lookup by value, failing for any other text. */
  function DecodeCountry(s: string): (r: Option<Country>)
    ensures r.Some? <==> (s == "Ireland" || s == "United States")
    ensures r.Some? ==> CountryValue(r.value) == s
  {
    if s == "Ireland" then Some(Ireland)
    else if s == "United States" then Some(UnitedStates)
    else None
  }

  lemma CountryRoundTrip(c: Country)
    ensures DecodeCountry(CountryValue(c)) == Some(c)
  {
  }

  /** A user row. `id` is the generated identifier; `country` may be NULL. */
  datatype User = User(id: string, firstName: string, lastName: string,
                       emailAddress: string, country: Option<Country>)

  /** The five columns of the user table. */
  datatype Column = Id | FirstName | LastName | EmailAddress | CountryColumn

  function ColumnName(col: Column): string {
    match col
    case Id => "id"
    case FirstName => "first_name"
    case LastName => "last_name"
    case EmailAddress => "email_address"
    case CountryColumn => "country"
  }

  const ColumnNames: set<string> := {"id", "first_name", "last_name", "email_address", "country"}

  /** The column a field name denotes, if any. */
  function ColumnByName(name: string): (r: Option<Column>)
    ensures r.Some? <==> name in ColumnNames
    ensures r.Some? ==> ColumnName(r.value) == name
  {
    if name == "id" then Some(Id)
    else if name == "first_name" then Some(FirstName)
    else if name == "last_name" then Some(LastName)
    else if name == "email_address" then Some(EmailAddress)
    else if name == "country" then Some(CountryColumn)
    else None
  }

  lemma ColumnRoundTrip(col: Column)
    ensures ColumnByName(ColumnName(col)) == Some(col)
  {
  }

  /** The text a row holds in a column; None for a NULL country. The
      country column stores the enumeration member's value. */
  function Field(u: User, col: Column): Option<string> {
    match col
    case Id => Some(u.id)
    case FirstName => Some(u.firstName)
    case LastName => Some(u.lastName)
    case EmailAddress => Some(u.emailAddress)
    case CountryColumn => if u.country.Some? then Some(CountryValue(u.country.value)) else None
  }

  /** `serialise`: a mapping from each column name to the row's value in
      that column. Reading `.value` of a NULL country raises, modelled as
      None. */
  function Serialise(u: User): (r: Option<map<string, string>>)
    ensures r.Some? <==> u.country.Some?
    ensures r.Some? ==> r.value.Keys == ColumnNames
    ensures r.Some? ==> forall col :: r.value[ColumnName(col)] == Field(u, col).value
  {
    match u.country
    case None => None
    case Some(c) =>
      Some(map["id" := u.id,
               "first_name" := u.firstName,
               "last_name" := u.lastName,
               "email_address" := u.emailAddress,
               "country" := CountryValue(c)])
  }

  /** Reads a serialised user back. */
  function Deserialise(m: map<string, string>): Option<User> {
    if ColumnNames <= m.Keys && DecodeCountry(m["country"]).Some? then
      Some(User(m["id"], m["first_name"], m["last_name"], m["email_address"],
                DecodeCountry(m["country"])))
    else None
  }

  /** Serialising loses nothing about a user that has a country. */
  lemma SerialiseRoundTrip(u: User)
    requires u.country.Some?
    ensures Serialise(u).Some? && Deserialise(Serialise(u).value) == Some(u)
  {
    CountryRoundTrip(u.country.value);
  }

  /** `__repr__`. */
  function Repr(u: User): string {
    "<User '" + u.firstName + " " + u.lastName + "'>"
  }

  /** The first index of `c` in `s`. */
  function IndexOf(s: string, c: char): (r: Option<nat>)
    ensures r.Some? ==> r.value < |s| && s[r.value] == c && c !in s[..r.value]
    ensures r.None? ==> c !in s
  {
    if s == [] then None
    else if s[0] == c then Some(0)
    else
      var rest := IndexOf(s[1..], c);
      if rest.Some? then
        assert s[..rest.value + 1] == [s[0]] + s[1..][..rest.value];
        Some(rest.value + 1)
      else None
  }

  /** Recovers first and last name from a representation, splitting the
      names at the first space. */
  function ParseRepr(r: string): Option<(string, string)> {
    if |r| >= 9 && r[..7] == "<User '" && r[|r| - 2..] == "'>" then
      var names := r[7..|r| - 2];
      match IndexOf(names, ' ')
      case None => None
      case Some(k) => Some((names[..k], names[k + 1..]))
    else None
  }

  /** The representation names the user: a first name without a space can
      be read back from it, and so can the last name. */
  lemma ReprRoundTrip(u: User)
    requires ' ' !in u.firstName
    ensures ParseRepr(Repr(u)) == Some((u.firstName, u.lastName))
  {
    var r := Repr(u);
    var names := u.firstName + " " + u.lastName;
    assert r == "<User '" + names + "'>";
    assert r[..7] == "<User '";
    assert r[|r| - 2..] == "'>";
    assert r[7..|r| - 2] == names;
    var k := IndexOf(names, ' ');
    assert names[|u.firstName|] == ' ';
    assert names[..|u.firstName|] == u.firstName;
    forall m | 0 <= m < |u.firstName| ensures names[m] != ' ' {
      assert names[m] == u.firstName[m];
    }
    assert ' ' in names;
    assert names[|u.firstName| + 1..] == u.lastName;
  }

  /** With a space inside the first name, two different users share a
      representation. */
  lemma ReprAmbiguousWithSpace()
    ensures Repr(User("1", "Mary Ann", "Lee", "m@x.ie", None))
         == Repr(User("1", "Mary", "Ann Lee", "m@x.ie", None))
  {
  }
}
