/** The password policy: at least eight characters with an upper-case
    letter, a lower-case letter, a digit and a character that is neither a
    letter nor a digit. Character classes are those of ASCII. */
module Passwords {
  import opened Common

  const MinLength := 8

  predicate IsUpper(c: char) { 'A' <= c <= 'Z' }
  predicate IsLower(c: char) { 'a' <= c <= 'z' }
  predicate IsDigit(c: char) { '0' <= c <= '9' }
  predicate IsLetterOrDigit(c: char) { IsUpper(c) || IsLower(c) || IsDigit(c) }

  /** The policy, stated with quantifiers. */
  predicate MeetsPolicy(p: string) {
    && (exists i :: 0 <= i < |p| && IsUpper(p[i]))
    && (exists i :: 0 <= i < |p| && IsLower(p[i]))
    && (exists i :: 0 <= i < |p| && IsDigit(p[i]))
    && (exists i :: 0 <= i < |p| && !IsLetterOrDigit(p[i]))
    && |p| >= MinLength
  }

  /** Which of the four classes occur in a string. */
  datatype Seen = Seen(upper: bool, lower: bool, digit: bool, special: bool)

  /** The four `Any` scans, done in one pass from the front. */
  function Scan(p: string): Seen
  {
    if p == [] then Seen(false, false, false, false)
    else
      var rest := Scan(p[1..]);
      var c := p[0];
      Seen(IsUpper(c) || rest.upper, IsLower(c) || rest.lower, IsDigit(c) || rest.digit,
           !IsLetterOrDigit(c) || rest.special)
  }

  /** Each flag of the scan is set exactly when a character of the class occurs. */
  lemma {:induction false} ScanMeans(p: string)
    ensures Scan(p).upper <==> exists i :: 0 <= i < |p| && IsUpper(p[i])
    ensures Scan(p).lower <==> exists i :: 0 <= i < |p| && IsLower(p[i])
    ensures Scan(p).digit <==> exists i :: 0 <= i < |p| && IsDigit(p[i])
    ensures Scan(p).special <==> exists i :: 0 <= i < |p| && !IsLetterOrDigit(p[i])
  {
    if p != [] {
      ScanMeans(p[1..]);
      forall i | 1 <= i < |p| ensures p[i] == p[1..][i - 1] { }
      if Scan(p[1..]).upper { var j :| 0 <= j < |p| - 1 && IsUpper(p[1..][j]); assert IsUpper(p[j + 1]); }
      if Scan(p[1..]).lower { var j :| 0 <= j < |p| - 1 && IsLower(p[1..][j]); assert IsLower(p[j + 1]); }
      if Scan(p[1..]).digit { var j :| 0 <= j < |p| - 1 && IsDigit(p[1..][j]); assert IsDigit(p[j + 1]); }
      if Scan(p[1..]).special { var j :| 0 <= j < |p| - 1 && !IsLetterOrDigit(p[1..][j]); assert !IsLetterOrDigit(p[j + 1]); }
    }
  }

  /** `PasswordValidator.IsValid`; `None` stands for null. A null, empty or
      blank password is invalid, and otherwise the five conditions decide. */
  function IsValid(password: Option<string>): (r: bool)
    ensures r <==> password.Some? && MeetsPolicy(password.value)
    ensures IsNullOrWhiteSpace(password) ==> !r
  {
    PolicyNotBlank(password);
    if IsNullOrWhiteSpace(password) then false
    else
      var p := password.value;
      var seen := Scan(p);
      ScanMeans(p);
      seen.upper && seen.lower && seen.digit && seen.special && |p| >= MinLength
  }

  /** The blank check is subsumed by the policy: an upper-case letter is
      not white space. */
  lemma PolicyNotBlank(password: Option<string>)
    ensures password.Some? && MeetsPolicy(password.value) ==> !IsNullOrWhiteSpace(password)
  {
    if password.Some? && MeetsPolicy(password.value) {
      var p := password.value;
      var i :| 0 <= i < |p| && IsUpper(p[i]);
      assert !IsWhiteSpace(p[i]);
    }
  }

  /** A password shorter than eight characters is invalid, whatever it holds. */
  lemma ShortPasswordInvalid(p: string)
    requires |p| < MinLength
    ensures !IsValid(Some(p))
  {
  }

  /** Appending any character to a valid password keeps it valid. */
  lemma AppendKeepsValid(p: string, c: char)
    requires IsValid(Some(p))
    ensures IsValid(Some(p + [c]))
  {
    var q := p + [c];
    var u :| 0 <= u < |p| && IsUpper(p[u]);
    var l :| 0 <= l < |p| && IsLower(p[l]);
    var d :| 0 <= d < |p| && IsDigit(p[d]);
    var s :| 0 <= s < |p| && !IsLetterOrDigit(p[s]);
    assert IsUpper(q[u]) && IsLower(q[l]) && IsDigit(q[d]) && !IsLetterOrDigit(q[s]);
  }

  /** A password made of letters and digits only is invalid, however long. */
  lemma MissingClassInvalid(p: string)
    requires forall i :: 0 <= i < |p| ==> IsLetterOrDigit(p[i])
    ensures !IsValid(Some(p))
  {
  }

  /** A sample: "Passw0rd!" is accepted, "password1!" (no upper case) is not. */
  lemma Samples()
    ensures IsValid(Some("Passw0rd!"))
    ensures !IsValid(Some("password1!"))
  {
    var good := "Passw0rd!";
    assert IsUpper(good[0]) && IsLower(good[1]) && IsDigit(good[5]) && !IsLetterOrDigit(good[8]);
    var bad := "password1!";
    assert forall i :: 0 <= i < |bad| ==> !IsUpper(bad[i]);
  }
}
