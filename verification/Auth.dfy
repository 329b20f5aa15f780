/** The password gate in front of every route. The Authorization header's
    base64 payload is taken as already decoded into the `user:pass` string. */
module Auth {
  import opened Common
  import opened Text

  const Password: string := "smemda"

  /** `const [username, password] = credentials.split(':')`: the second field,
      or None (JavaScript's undefined) when there is no ':' at all. */
  function PasswordField(credentials: string): Option<string>
  {
    var parts := Split(credentials, ':');
    if |parts| >= 2 then Some(parts[1]) else None
  }

  /** The middleware lets the request through. None: no Authorization header. */
  function Admits(credentials: Option<string>): bool
  {
    credentials.Some? && PasswordField(credentials.value) == Some(Password)
  }

  /** Declarative reading of the check: after the first ':' comes the password,
      followed by the end of the string or by another ':'. */
  ghost predicate PasswordAfterFirstColon(c: string, pw: string)
  {
    exists i | 0 <= i < |c| && c[i] == ':' ::
      && ':' !in c[..i]
      && pw <= c[i + 1..]
      && (|c| == i + 1 + |pw| || c[i + 1 + |pw|] == ':')
  }

  /** Admission holds exactly for the credential strings of that shape, with any
      user name. */
  lemma AdmitsIff(c: string)
    ensures Admits(Some(c)) <==> PasswordAfterFirstColon(c, Password)
  {
    if Admits(Some(c)) {
      AdmittedHasShape(c);
    }
    if PasswordAfterFirstColon(c, Password) {
      var i :| 0 <= i < |c| && c[i] == ':' && ':' !in c[..i] && Password <= c[i + 1..]
               && (|c| == i + 1 + |Password| || c[i + 1 + |Password|] == ':');
      ShapeIsAdmitted(c, i);
    }
  }

  lemma AdmittedHasShape(c: string)
    requires Admits(Some(c))
    ensures PasswordAfterFirstColon(c, Password)
  {
    var parts := Split(c, ':');
    SplitFirstTwo(c, ':');
    var i := |parts[0]|;
    var k := i + 1 + |parts[1]|;
    assert c[..k] == parts[0] + [':'] + parts[1];
    assert c[i] == c[..k][i] == ':';
    assert c[..i] == c[..k][..i] == parts[0];
    assert c[i + 1..][..|Password|] == c[..k][i + 1..] == Password;
  }

  lemma ShapeIsAdmitted(c: string, i: int)
    requires 0 <= i < |c| && c[i] == ':' && ':' !in c[..i] && Password <= c[i + 1..]
    requires |c| == i + 1 + |Password| || c[i + 1 + |Password|] == ':'
    ensures Admits(Some(c))
  {
    assert ':' !in Password;
    SecondField(c, i, Password);
  }

  /** The field after the first ':' is `pw` when `pw` (free of ':') follows that
      colon and is followed by the end or by another ':'. */
  lemma SecondField(c: string, i: int, pw: string)
    requires ':' !in pw
    requires 0 <= i < |c| && c[i] == ':' && ':' !in c[..i] && pw <= c[i + 1..]
    requires |c| == i + 1 + |pw| || c[i + 1 + |pw|] == ':'
    ensures PasswordField(c) == Some(pw)
  {
    SplitAt(c, i, ':');
    var tail := c[i + 1..];
    var rest := tail[|pw|..];
    assert tail == pw + rest;
    assert rest == [] || rest[0] == c[i + 1 + |pw|];
    FirstField(pw, rest, ':');
  }

  /** The password as section 2 of RFC 7617 defines it: everything after the
      first ':' (a user-id cannot contain ':'). */
  function RfcPassword(c: string): Option<string>
  {
    if ':' in c then Some(Join(Split(c, ':')[1..], ':')) else None
  }

  /** The gate departs from RFC 7617: a trailing `:x` is ignored, so the
      RFC password `smemda:x` is admitted. */
  lemma AdmitsExtraField()
    ensures Admits(Some("u:smemda:x"))
    ensures RfcPassword("u:smemda:x") == Some("smemda:x") != Some(Password)
  {
    var c := "u:smemda:x";
    assert c[..1] == "u" && c[1] == ':' && c[2..][..6] == Password && c[8] == ':';
    SecondField(c, 1, Password);
    RfcPasswordAt(c, 1);
    assert c[2..] == "smemda:x";
  }

  /** The RFC password is the text after the first ':'. */
  lemma RfcPasswordAt(c: string, i: int)
    requires 0 <= i < |c| && c[i] == ':' && ':' !in c[..i]
    ensures RfcPassword(c) == Some(c[i + 1..])
  {
    SplitAt(c, i, ':');
    assert (([c[..i]] + Split(c[i + 1..], ':'))[1..]) == Split(c[i + 1..], ':');
  }

  lemma JoinShowsSeparator(parts: seq<string>, sep: char)
    ensures |parts| >= 2 ==> sep in Join(parts, sep)
  {
    if |parts| >= 2 {
      assert Join(parts, sep)[|parts[0]|] == sep;
    }
  }

  /** When the RFC password holds no ':', the gate and RFC 7617 agree. */
  lemma AgreesWithRfcWithoutSecondColon(c: string)
    requires ':' in c
    requires ':' !in RfcPassword(c).value
    ensures Admits(Some(c)) <==> RfcPassword(c) == Some(Password)
  {
    var parts := Split(c, ':');
    JoinShowsSeparator(parts[1..], ':');
  }
}
