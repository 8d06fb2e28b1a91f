/** The email-address check of the User model: `EMAIL_REGEX` applied with
    Python's `re.match`, which anchors the pattern at the start of the value
    but not at its end. The pattern is
      [A-Z0-9a-z._%+-]+ @ [A-Za-z0-9.-]+ \. [A-Za-z]{2,64}            */
module EmailPattern {
  import opened Basics

  const MismatchMessage: string := "Email does not match the required pattern."

  predicate IsLetter(c: char) {
    'A' <= c <= 'Z' || 'a' <= c <= 'z'
  }

  predicate IsDigit(c: char) {
    '0' <= c <= '9'
  }

  /** The class `[A-Z0-9a-z._%+-]` of the local part. */
  predicate IsLocalChar(c: char) {
    IsLetter(c) || IsDigit(c) || c == '.' || c == '_' || c == '%' || c == '+' || c == '-'
  }

  /** The class `[A-Za-z0-9.-]` of the domain. */
  predicate IsDomainChar(c: char) {
    IsLetter(c) || IsDigit(c) || c == '.' || c == '-'
  }

  /** `w` as a whole matches the pattern, with the `@` at `i` and the last
      `.` before the top-level tld at `j`. */
  ghost predicate FullMatchAt(w: string, i: int, j: int) {
    && 0 < i && i + 1 < j && j < |w|
    && (forall k :: 0 <= k < i ==> IsLocalChar(w[k]))
    && w[i] == '@'
    && (forall k :: i < k < j ==> IsDomainChar(w[k]))
    && w[j] == '.'
    && 2 <= |w| - j - 1 <= 64
    && (forall k :: j < k < |w| ==> IsLetter(w[k]))
  }

  ghost predicate FullMatch(w: string) {
    exists i, j :: FullMatchAt(w, i, j)
  }

  /** `re.match`: some prefix of `s` matches the whole pattern. */
  ghost predicate RegexMatch(s: string) {
    exists n :: 0 <= n <= |s| && FullMatch(s[..n])
  }

  /** The shape that decides acceptance: a local part, `@`, a domain, `.`,
      and two letters, starting at index 0 of `s`. */
  ghost predicate ShapeAt(s: string, i: int, j: int) {
    && 0 < i && i + 1 < j && j + 2 < |s|
    && (forall k :: 0 <= k < i ==> IsLocalChar(s[k]))
    && s[i] == '@'
    && (forall k :: i < k < j ==> IsDomainChar(s[k]))
    && s[j] == '.' && IsLetter(s[j + 1]) && IsLetter(s[j + 2])
  }

  ghost predicate HasEmailPrefix(s: string) {
    exists i, j :: ShapeAt(s, i, j)
  }

  /** The upper bound of 64 letters on the top-level tld never causes a
      rejection: `re.match` accepts exactly the values with the shape above. */
  lemma UpperTldBoundIrrelevant(s: string)
    ensures RegexMatch(s) <==> HasEmailPrefix(s)
  {
    if RegexMatch(s) {
      var n :| 0 <= n <= |s| && FullMatch(s[..n]);
      var i, j :| FullMatchAt(s[..n], i, j);
      assert ShapeAt(s, i, j);
    }
    if HasEmailPrefix(s) {
      var i, j :| ShapeAt(s, i, j);
      var w := s[..j + 3];
      assert FullMatchAt(w, i, j);
      assert FullMatch(w);
    }
  }

  /** Index of the first character at or after `k` outside the local class. */
  function LocalRunEnd(s: string, k: nat): (e: nat)
    requires k <= |s|
    ensures k <= e <= |s|
    ensures forall m :: k <= m < e ==> IsLocalChar(s[m])
    ensures e < |s| ==> !IsLocalChar(s[e])
    decreases |s| - k
  {
    if k == |s| || !IsLocalChar(s[k]) then k else LocalRunEnd(s, k + 1)
  }

  /** Index of the first character at or after `k` outside the domain class. */
  function DomainRunEnd(s: string, k: nat): (e: nat)
    requires k <= |s|
    ensures k <= e <= |s|
    ensures forall m :: k <= m < e ==> IsDomainChar(s[m])
    ensures e < |s| ==> !IsDomainChar(s[e])
    decreases |s| - k
  {
    if k == |s| || !IsDomainChar(s[k]) then k else DomainRunEnd(s, k + 1)
  }

  /** A `.` followed by two letters at `j`. */
  predicate TldAt(s: string, j: int) {
    0 <= j && j + 2 < |s| && s[j] == '.' && IsLetter(s[j + 1]) && IsLetter(s[j + 2])
  }

  /** Whether some `j` with `lo <= j <= hi` starts a `.` and two letters. */
  function TldWithin(s: string, lo: nat, hi: nat): (r: bool)
    ensures r <==> exists j :: lo <= j <= hi && TldAt(s, j)
    decreases hi + 1 - lo
  {
    if hi < lo then false
    else if TldAt(s, lo) then true
    else TldWithin(s, lo + 1, hi)
  }

  /** The executable check: the local part is the run of local characters
      at the start, which must end at an `@`; the `.` before the top-level
      tld must lie inside the run of domain characters after it. */
  function CheckEmail(s: string): (r: bool)
    ensures r <==> RegexMatch(s)
  {
    var i := LocalRunEnd(s, 0);
    var r := 0 < i < |s| && s[i] == '@' && TldWithin(s, i + 2, DomainRunEnd(s, i + 1));
    CheckEmailSound(s);
    CheckEmailComplete(s);
    UpperTldBoundIrrelevant(s);
    r
  }

  lemma CheckEmailSound(s: string)
    ensures var i := LocalRunEnd(s, 0);
            (0 < i < |s| && s[i] == '@' && TldWithin(s, i + 2, DomainRunEnd(s, i + 1))) ==> HasEmailPrefix(s)
  {
    var i := LocalRunEnd(s, 0);
    if 0 < i < |s| && s[i] == '@' && TldWithin(s, i + 2, DomainRunEnd(s, i + 1)) {
      var e := DomainRunEnd(s, i + 1);
      var j :| i + 2 <= j <= e && TldAt(s, j);
      assert ShapeAt(s, i, j);
    }
  }

  lemma CheckEmailComplete(s: string)
    ensures HasEmailPrefix(s) ==>
            var i := LocalRunEnd(s, 0);
            0 < i < |s| && s[i] == '@' && TldWithin(s, i + 2, DomainRunEnd(s, i + 1))
  {
    if HasEmailPrefix(s) {
      var i, j :| ShapeAt(s, i, j);
      // '@' is outside the local class, so the local run stops exactly there
      assert !IsLocalChar(s[i]);
      assert LocalRunEnd(s, 0) == i;
      // '.' is inside the domain class, so the domain run reaches past j
      assert IsDomainChar(s[j]);
      assert DomainRunEnd(s, i + 1) > j;
      assert TldAt(s, j);
    }
  }

  /** `validate_email`: the value itself when it matches, otherwise the
      mismatch error. */
  function ValidateEmail(value: string): (r: Result<string>)
    ensures r.Ok? <==> RegexMatch(value)
    ensures r.Ok? ==> r.value == value
    ensures r.Err? ==> r.error == MismatchMessage
  {
    if CheckEmail(value) then Ok(value) else Err(MismatchMessage)
  }

  /** `s` splits at its first `@`, at `i`, into a non-empty run of local
      characters, and after it a non-empty run of domain characters, a `.`
      at `j` and two letters. */
  ghost predicate FirstAtSplit(s: string, i: int, j: int) {
    && 0 < i < j && TldAt(s, j)
    && s[i] == '@' && '@' !in s[..i]
    && (forall k :: 0 <= k < i ==> IsLocalChar(s[k]))
    && i + 1 < j && (forall k :: i < k < j ==> IsDomainChar(s[k]))
  }

  /** Acceptance, stated on the first `@` of the value. */
  lemma AcceptedIffSplitAtFirstAt(s: string)
    ensures ValidateEmail(s).Ok? <==> exists i, j :: FirstAtSplit(s, i, j)
  {
    UpperTldBoundIrrelevant(s);
    if HasEmailPrefix(s) {
      var i, j :| ShapeAt(s, i, j);
      assert '@' !in s[..i] by {
        forall k | 0 <= k < i ensures s[..i][k] != '@' { assert IsLocalChar(s[k]); }
      }
      assert FirstAtSplit(s, i, j);
    }
    if exists i, j :: FirstAtSplit(s, i, j) {
      var i, j :| FirstAtSplit(s, i, j);
      assert ShapeAt(s, i, j);
    }
  }

  /** `re.match` has no end anchor: whatever follows an accepted value, the
      longer value is accepted too. */
  lemma AcceptanceIsPrefixClosed(s: string, t: string)
    requires ValidateEmail(s).Ok?
    ensures ValidateEmail(s + t) == Ok(s + t)
  {
    var n :| 0 <= n <= |s| && FullMatch(s[..n]);
    assert (s + t)[..n] == s[..n];
  }

  /** A value with no `@` is rejected with the mismatch message. */
  lemma NoAtSignRejected(s: string)
    requires '@' !in s
    ensures ValidateEmail(s) == Err(MismatchMessage)
  {
    forall i, j ensures !ShapeAt(s, i, j) {
      if 0 <= i < |s| { assert s[i] in s; }
    }
    UpperTldBoundIrrelevant(s);
  }

  /** A top-level label longer than 64 letters is still accepted. */
  lemma LongTldAccepted(tld: string)
    requires |tld| >= 2 && forall k :: 0 <= k < |tld| ==> IsLetter(tld[k])
    ensures ValidateEmail("a@b." + tld).Ok?
  {
    var s := "a@b." + tld;
    assert ShapeAt(s, 1, 3);
    UpperTldBoundIrrelevant(s);
  }

  /** The addresses that appear in the handlers' tests. */
  lemma ExampleAccepted()
    ensures ValidateEmail("baz@qux.com") == Ok("baz@qux.com")
  {
    assert ShapeAt("baz@qux.com", 3, 7);
    UpperTldBoundIrrelevant("baz@qux.com");
  }

  lemma ExampleAcceptedBond()
    ensures ValidateEmail("james.bond@mi6.co.uk") == Ok("james.bond@mi6.co.uk")
  {
    assert ShapeAt("james.bond@mi6.co.uk", 10, 17);
    UpperTldBoundIrrelevant("james.bond@mi6.co.uk");
  }

  lemma ExampleAcceptedZodiac()
    ensures ValidateEmail("azod@gmail.com") == Ok("azod@gmail.com")
  {
    assert ShapeAt("azod@gmail.com", 4, 10);
    UpperTldBoundIrrelevant("azod@gmail.com");
  }

  lemma ExampleRejected()
    ensures ValidateEmail("bazqux.com") == Err(MismatchMessage)
  {
    NoAtSignRejected("bazqux.com");
  }
}
