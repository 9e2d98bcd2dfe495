/** etcdctl's `addHexPrefix`: a hex-encoded string printed as `\x`
    escapes, each pair of hex digits preceded by a backslash and an `x`.
    Characters stand for the bytes of Go's string. */
module HexPrefix {

  /** The escaped form of an even-length string, pair by pair. */
  function HexPrefixed(s: string): (r: string)
    requires |s| % 2 == 0
    ensures |r| == 2 * |s|
  {
    if |s| == 0 then [] else ['\\', 'x', s[0], s[1]] + HexPrefixed(s[2..])
  }

  /** The escaped form, read back: the last two characters of each group
      of four. */
  function StripHexPrefix(t: string): (s: string)
    requires |t| % 4 == 0
    ensures 2 * |s| == |t|
  {
    if |t| == 0 then [] else t[2..4] + StripHexPrefix(t[4..])
  }

  /** Every group of four starts with the `\x` escape. */
  predicate Escaped(t: string)
  {
    |t| % 4 == 0 && forall j :: 0 <= j < |t| / 4 ==> t[4 * j] == '\\' && t[4 * j + 1] == 'x'
  }

  /** Group j of the output is `\`, `x`, then input characters 2j and 2j+1. */
  lemma {:induction false} HexGroups(s: string)
    requires |s| % 2 == 0
    ensures forall j :: 0 <= j < |s| / 2 ==>
      HexPrefixed(s)[4 * j..4 * j + 4] == ['\\', 'x', s[2 * j], s[2 * j + 1]]
  {
    if |s| > 0 {
      HexGroups(s[2..]);
      var r := HexPrefixed(s);
      var head: string := ['\\', 'x', s[0], s[1]];
      assert r == head + HexPrefixed(s[2..]);
      forall j | 0 <= j < |s| / 2
        ensures r[4 * j..4 * j + 4] == ['\\', 'x', s[2 * j], s[2 * j + 1]]
      {
        if j > 0 {
          assert r[4 * j..4 * j + 4] == HexPrefixed(s[2..])[4 * (j - 1)..4 * (j - 1) + 4];
          assert s[2..][2 * (j - 1)] == s[2 * j] && s[2..][2 * (j - 1) + 1] == s[2 * j + 1];
        } else {
          assert r[0..4] == head;
        }
      }
    }
  }

  /** Dropping the escapes gives back the input. */
  lemma {:induction false} StripAfterPrefix(s: string)
    requires |s| % 2 == 0
    ensures StripHexPrefix(HexPrefixed(s)) == s
  {
    if |s| > 0 {
      StripAfterPrefix(s[2..]);
      var r := HexPrefixed(s);
      assert r[4..] == HexPrefixed(s[2..]);
      assert s == s[..2] + s[2..];
    }
  }

  /** Conversely every escaped string is the escaped form of what its
      escapes enclose. */
  lemma {:induction false} PrefixAfterStrip(t: string)
    requires Escaped(t)
    ensures HexPrefixed(StripHexPrefix(t)) == t
  {
    if |t| > 0 {
      assert Escaped(t[4..]) by {
        forall j | 0 <= j < |t[4..]| / 4
          ensures t[4..][4 * j] == '\\' && t[4..][4 * j + 1] == 'x'
        {
          assert t[4..][4 * j] == t[4 * (j + 1)];
        }
      }
      PrefixAfterStrip(t[4..]);
      var first := 0;
      assert t[4 * first] == '\\' && t[4 * first + 1] == 'x';
      var s := StripHexPrefix(t);
      assert s[2..] == StripHexPrefix(t[4..]);
      assert t == t[..4] + t[4..];
    }
  }

  /** The escaped form of a string extended by one pair. */
  lemma {:induction false} HexPrefixedSnoc(s: string, a: char, b: char)
    requires |s| % 2 == 0
    ensures HexPrefixed(s + [a, b]) == HexPrefixed(s) + ['\\', 'x', a, b]
  {
    if |s| == 0 {
      assert s + [a, b] == [a, b];
    } else {
      HexPrefixedSnoc(s[2..], a, b);
      assert (s + [a, b])[2..] == s[2..] + [a, b];
    }
  }

  /** One group of `addHexPrefix`'s output, written at ns[k..k + 4]. */
  method PutGroup(ns: array<char>, k: nat, a: char, b: char)
    requires k + 4 <= ns.Length
    modifies ns
    ensures ns[..k] == old(ns[..k])
    ensures ns[k..k + 4] == ['\\', 'x', a, b]
  {
    ns[k] := '\\';
    ns[k + 1] := 'x';
    ns[k + 2] := a;
    ns[k + 3] := b;
  }

  /** `addHexPrefix`: fills a buffer twice the input's length, four
      characters for every two of the input. The input has even length
      (it comes from a hex encoder); the Go code indexes past the end
      otherwise. */
  method AddHexPrefix(s: string) returns (r: string)
    requires |s| % 2 == 0
    ensures r == HexPrefixed(s)
  {
    var ns := new char[|s| * 2];
    var i := 0;
    while i < |s|
      invariant 0 <= i <= |s| && i % 2 == 0
      invariant ns[..2 * i] == HexPrefixed(s[..i])
    {
      PutGroup(ns, i * 2, s[i], s[i + 1]);
      assert ns[..2 * (i + 2)] == ns[..2 * i] + ns[2 * i..2 * i + 4];
      assert s[..i + 2] == s[..i] + [s[i], s[i + 1]];
      HexPrefixedSnoc(s[..i], s[i], s[i + 1]);
      i := i + 2;
    }
    assert s[..i] == s;
    return ns[..];
  }
}
