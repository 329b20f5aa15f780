/** The address masking the board shows next to every post and comment
    (`maskIP`): only the first two dot-separated fields of the origin address. */
module Masking {
  import opened Common
  import opened Text

  const MissingMask: string := "(?.?.?.?)"
  const UnparseableMask: string := "?.?.?.?"

  /** The address after the two rewrites: the IPv6 loopback becomes `127.0.0.1`,
      then an IPv4-mapped IPv6 prefix `::ffff:` is dropped. */
  function Normalize(ip: string): string
  {
    var v := if ip == "::1" then "127.0.0.1" else ip;
    if "::ffff:" <= v then v[7..] else v
  }

  /** `maskIP(ip)`; None stands for a missing address (null or undefined). */
  function MaskIP(ip: Option<string>): string
  {
    if ip.None? || ip.value == "" then MissingMask
    else MaskNormalized(Normalize(ip.value))
  }

  /** The masking of an address already normalized: its first two '.'-fields. */
  function MaskNormalized(v: string): string
  {
    if '.' in v then
      var parts := Split(v, '.');
      if |parts| >= 2 then parts[0] + "." + parts[1] else UnparseableMask
    else UnparseableMask
  }

  /** `r` is the text of `v` up to its second dot (or up to its end): a prefix of
      `v` holding exactly one dot, after which `v` ends or has another dot. */
  ghost predicate FirstTwoFields(v: string, r: string)
  {
    && r <= v
    && (|r| == |v| || v[|r|] == '.')
    && exists i | 0 <= i < |r| && r[i] == '.' :: '.' !in r[..i] && '.' !in r[i + 1..]
  }

  /** The three outcomes of masking, by input. */
  lemma MaskIPCases(ip: Option<string>)
    ensures ip.None? || ip == Some("") ==> MaskIP(ip) == MissingMask
    ensures ip.Some? && ip.value != "" && '.' !in Normalize(ip.value) ==>
      MaskIP(ip) == UnparseableMask
    ensures ip.Some? && ip.value != "" && '.' in Normalize(ip.value) ==>
      FirstTwoFields(Normalize(ip.value), MaskIP(ip))
  {
    if ip.Some? && ip.value != "" && '.' in Normalize(ip.value) {
      var v := Normalize(ip.value);
      var parts := Split(v, '.');
      SplitFirstTwo(v, '.');
      var r := MaskIP(ip);
      var i := |parts[0]|;
      assert r == parts[0] + [ '.' ] + parts[1];
      assert r[..i] == parts[0] && r[i + 1..] == parts[1];
      assert r[i] == '.';
    }
  }

  /** A masked address other than the two placeholders never exposes more
      than one dot. */
  lemma MaskIPHasAtMostOneDot(ip: Option<string>, j: int, k: int)
    requires 0 <= j < k < |MaskIP(ip)|
    ensures MaskIP(ip) == MissingMask || MaskIP(ip) == UnparseableMask
      || !(MaskIP(ip)[j] == '.' && MaskIP(ip)[k] == '.')
  {
    MaskIPCases(ip);
    if ip.Some? && ip.value != "" && '.' in Normalize(ip.value) {
      DottedMaskHasOneDot(ip, j, k);
    }
  }

  lemma DottedMaskHasOneDot(ip: Option<string>, j: int, k: int)
    requires 0 <= j < k < |MaskIP(ip)|
    requires ip.Some? && ip.value != "" && '.' in Normalize(ip.value)
    ensures !(MaskIP(ip)[j] == '.' && MaskIP(ip)[k] == '.')
  {
    MaskIPCases(ip);
    var r := MaskIP(ip);
    var i :| 0 <= i < |r| && r[i] == '.' && '.' !in r[..i] && '.' !in r[i + 1..];
    if j < i {
      assert r[j] == r[..i][j];
    } else {
      assert r[k] == r[i + 1..][k - i - 1];
    }
  }

  /** The placeholders appear exactly for a missing or empty address and for
      one whose normal form has no dot: a dotted address never masks to a
      placeholder. */
  lemma PlaceholderExactlyWhenUndotted(ip: Option<string>)
    ensures (MaskIP(ip) == MissingMask || MaskIP(ip) == UnparseableMask) <==>
      (ip.None? || ip.value == "" || '.' !in Normalize(ip.value))
  {
    MaskIPCases(ip);
    if ip.Some? && ip.value != "" && '.' in Normalize(ip.value) {
      var r := MaskIP(ip);
      if r == UnparseableMask {
        DottedMaskHasOneDot(ip, 1, 3);
      } else if r == MissingMask {
        DottedMaskHasOneDot(ip, 2, 4);
      }
    }
  }

  /** Conversely, an address whose normal form starts with two dot-free fields
      masks to exactly those two fields. */
  lemma MaskOfFields(v: string, a: string, b: string, rest: string)
    requires '.' !in a && '.' !in b && (rest == "" || rest[0] == '.')
    requires v == a + "." + b + rest
    ensures MaskNormalized(v) == a + "." + b
  {
    assert v == a + ['.'] + (b + rest);
    SplitAfterFirst(a, '.', b + rest);
    FirstField(b, rest, '.');
  }

  /** The IPv6 loopback is shown as `127.0`. */
  lemma MaskLoopback()
    ensures MaskIP(Some("::1")) == "127.0"
  {
    NormalizeLoopback();
    var v := Normalize("::1");
    assert v == "127" + "." + "0" + ".0.1";
    MaskOfFields(v, "127", "0", ".0.1");
  }

  lemma NormalizeLoopback()
    ensures Normalize("::1") == "127.0.0.1"
  {
    var loopback := "127.0.0.1";
    assert !("::ffff:" <= loopback) by { assert loopback[0] != "::ffff:"[0]; }
  }

  /** An IPv4-mapped address masks like the IPv4 address it carries, unless what
      follows the prefix is itself empty, the loopback or another mapped prefix. */
  lemma MaskMappedIPv4(s: string)
    requires s != "" && s != "::1" && !("::ffff:" <= s)
    ensures MaskIP(Some("::ffff:" + s)) == MaskIP(Some(s))
  {
    NormalizeMapped(s);
  }

  /** The mapped prefix is dropped from whatever follows it. */
  lemma NormalizeMapped(s: string)
    ensures Normalize("::ffff:" + s) == s
  {
    var m := "::ffff:" + s;
    assert m != "::1" by { assert |m| > 3; }
    assert "::ffff:" <= m;
    assert m[7..] == s;
  }

  /** A normal form without a dot cannot be masked. */
  lemma MaskWithoutDot(v: string)
    requires '.' !in v
    ensures MaskNormalized(v) == UnparseableMask
  {
  }

  /** The first exception is real: the bare prefix, with nothing after it, is
      not treated as a missing address. */
  lemma MaskMappedEmpty()
    ensures MaskIP(Some("::ffff:" + "")) == UnparseableMask != MaskIP(Some(""))
  {
    NormalizeMapped("");
    MaskWithoutDot("");
    assert |UnparseableMask| != |MissingMask|;
  }

  /** The second exception is real: a mapped loopback is not rewritten to
      `127.0.0.1`. */
  lemma MaskMappedLoopback()
    ensures MaskIP(Some("::ffff:" + "::1")) == UnparseableMask != MaskIP(Some("::1"))
  {
    NormalizeMapped("::1");
    MaskWithoutDot("::1");
    MaskLoopback();
    assert |UnparseableMask| != |"127.0"|;
  }
}
