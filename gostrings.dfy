/**
 * The parts of Go's `strings` package and of the string/byte-slice conversion that the
 * server relies on.
 *
 * A Go string is a sequence of bytes. Here it is a Dafny `string` each of whose characters
 * stands for one byte, so every character of a well-formed Go string is below 256.
 */
module GoStrings {
  import opened Wrappers

  newtype byte = x: int | 0 <= x < 256

  predicate IsByteString(s: string) {
    forall i | 0 <= i < |s| :: s[i] as int < 256
  }

  type GoString = s: string | IsByteString(s)

  /** `[]byte(s)`: the bytes of a Go string. */
  function ToBytes(s: GoString): (b: seq<byte>)
    ensures |b| == |s|
    ensures forall i | 0 <= i < |s| :: b[i] as int == s[i] as int
  {
    seq(|s|, i requires 0 <= i < |s| => s[i] as int as byte)
  }

  /** `string(b)`: the Go string holding the bytes `b`. */
  function FromBytes(b: seq<byte>): (s: GoString)
    ensures |s| == |b|
    ensures forall i | 0 <= i < |b| :: s[i] as int == b[i] as int
  {
    if b == [] then "" else [b[0] as int as char] + FromBytes(b[1..])
  }

  /** Converting a string to bytes and back gives the string again. */
  lemma BytesRoundTrip(s: GoString)
    ensures FromBytes(ToBytes(s)) == s
  {
    var t := FromBytes(ToBytes(s));
    assert |t| == |s|;
    forall i | 0 <= i < |s| ensures t[i] == s[i] {
      assert t[i] as int == s[i] as int;
    }
  }

  /** `strings.HasPrefix(s, prefix)`. */
  predicate HasPrefix(s: string, prefix: string) {
    prefix <= s
  }

  /** `strings.IndexByte(s, c)`: the first position of `c` in `s`, or None. */
  function IndexOf(s: string, c: char): (r: Option<nat>)
    ensures r.None? <==> c !in s
    ensures r.Some? ==> r.value < |s| && s[r.value] == c && c !in s[..r.value]
    decreases |s|
  {
    if s == [] then None
    else if s[0] == c then Some(0)
    else match IndexOf(s[1..], c)
      case None => None
      case Some(i) => assert s[1..][..i] == s[1..i + 1]; Some(i + 1)
  }

  /** `strings.LastIndexByte(s, c)`: the last position of `c` in `s`, or None. */
  function LastIndexOf(s: string, c: char): (r: Option<nat>)
    ensures r.None? <==> c !in s
    ensures r.Some? ==> r.value < |s| && s[r.value] == c && c !in s[r.value + 1..]
    decreases |s|
  {
    if s == [] then None
    else if s[|s| - 1] == c then Some(|s| - 1)
    else match LastIndexOf(s[..|s| - 1], c)
      case None => None
      case Some(i) => assert s[i + 1..] == s[..|s| - 1][i + 1..] + [s[|s| - 1]]; Some(i)
  }

  /**
   * `strings.SplitN(s, sep, n)` for a one-byte separator: cut `s` at the first n - 1
   * occurrences of `sep` (at all of them when n < 0); n == 0 gives no pieces (Go's nil).
   */
  function SplitN(s: string, sep: char, n: int): (parts: seq<string>)
    ensures n == 0 <==> parts == []
    ensures n > 0 ==> |parts| <= n
    ensures forall k | 0 <= k < |parts| - 1 :: sep !in parts[k]
    ensures parts != [] && (n < 0 || |parts| < n) ==> sep !in parts[|parts| - 1]
    decreases |s|
  {
    if n == 0 then []
    else if n == 1 then [s]
    else match IndexOf(s, sep)
      case None => [s]
      case Some(i) => [s[..i]] + SplitN(s[i + 1..], sep, if n < 0 then n else n - 1)
  }

  /** `strings.Join(parts, sep)` for a one-byte separator. */
  function Join(parts: seq<string>, sep: char): string {
    if parts == [] then ""
    else if |parts| == 1 then parts[0]
    else parts[0] + [sep] + Join(parts[1..], sep)
  }

  lemma JoinCons(head: string, rest: seq<string>, sep: char)
    requires rest != []
    ensures Join([head] + rest, sep) == head + [sep] + Join(rest, sep)
  {
    assert ([head] + rest)[1..] == rest;
  }

  /** Joining the pieces of a split with the separator gives back the split string. */
  lemma {:induction false} SplitNJoin(s: string, sep: char, n: int)
    requires n != 0
    ensures Join(SplitN(s, sep, n), sep) == s
    decreases |s|
  {
    if n != 1 {
      match IndexOf(s, sep)
      case None =>
      case Some(i) =>
        var m := if n < 0 then n else n - 1;
        var head, tail := s[..i], s[i + 1..];
        var rest := SplitN(tail, sep, m);
        SplitNJoin(tail, sep, m);
        JoinCons(head, rest, sep);
        assert s == head + [sep] + tail;
    }
  }

  /** Every piece of a split Go string is a Go string. */
  lemma {:induction false} SplitNBytes(s: GoString, sep: char, n: int)
    ensures forall p | p in SplitN(s, sep, n) :: IsByteString(p)
    decreases |s|
  {
    if n != 0 && n != 1 {
      match IndexOf(s, sep)
      case None =>
      case Some(i) =>
        var m := if n < 0 then n else n - 1;
        var rest: GoString := s[i + 1..];
        SplitNBytes(rest, sep, m);
        var head: GoString := s[..i];
    }
  }

  /** `s[i..i + |sub|]` is `sub`. */
  predicate OccursAt(s: string, sub: string, i: int) {
    0 <= i && i + |sub| <= |s| && s[i..i + |sub|] == sub
  }

  /** `strings.Contains(s, sub)`: `sub` occurs somewhere in `s` (the empty string always does). */
  function Contains(s: string, sub: string): (r: bool)
    ensures r <==> exists i :: OccursAt(s, sub, i)
    decreases |s|
  {
    if sub <= s then
      assert OccursAt(s, sub, 0);
      true
    else if s == [] then
      false
    else
      var r := Contains(s[1..], sub);
      assert r ==> exists i :: OccursAt(s, sub, i) by {
        if r {
          var j :| OccursAt(s[1..], sub, j);
          assert s[1..][j..j + |sub|] == s[j + 1..j + 1 + |sub|];
          assert OccursAt(s, sub, j + 1);
        }
      }
      assert (exists i :: OccursAt(s, sub, i)) ==> r by {
        if exists i :: OccursAt(s, sub, i) {
          var i :| OccursAt(s, sub, i);
          assert i != 0;
          assert s[1..][i - 1..i - 1 + |sub|] == s[i..i + |sub|];
          assert OccursAt(s[1..], sub, i - 1);
        }
      }
      r
  }
}
