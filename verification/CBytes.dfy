/** Bytes and C strings: a C string is the part of a buffer before its first NUL. */
module CBytes {

  type byte = b: int | 0 <= b < 256

  datatype Option<+T> = None | Some(value: T)

  predicate NulFree(s: seq<byte>) {
    forall i :: 0 <= i < |s| ==> s[i] != 0
  }

  /** The buffer holds a terminator. */
  predicate Terminated(s: seq<byte>) {
    exists i :: 0 <= i < |s| && s[i] == 0
  }

  function StrLen(s: seq<byte>): (n: nat)
    ensures n <= |s|
    ensures NulFree(s[..n])
    ensures n < |s| ==> s[n] == 0
  {
    if s == [] || s[0] == 0 then 0
    else
      var n := 1 + StrLen(s[1..]);
      assert s[..n] == [s[0]] + s[1..][..n - 1];
      n
  }

  function CStr(s: seq<byte>): (r: seq<byte>) {
    s[..StrLen(s)]
  }

  /** The first NUL is the only place a C string can end. */
  lemma {:induction false} StrLenIs(s: seq<byte>, n: nat)
    requires n < |s| && s[n] == 0 && NulFree(s[..n])
    ensures StrLen(s) == n && CStr(s) == s[..n]
  {
    var m := StrLen(s);
    assert NulFree(s[..m]) && forall i :: 0 <= i < m ==> s[..m][i] == s[i];
    assert forall i :: 0 <= i < n ==> s[..n][i] == s[i];
  }

  lemma {:induction false} StrLenFull(s: seq<byte>)
    requires NulFree(s)
    ensures StrLen(s) == |s| && CStr(s) == s
  {
    var n := StrLen(s);
    assert s[..|s|] == s;
  }

  function Zeros(n: nat): (r: seq<byte>)
    ensures |r| == n && forall i :: 0 <= i < n ==> r[i] == 0
  {
    seq(n, _ => 0)
  }

  lemma {:induction false} CStrPadded(s: seq<byte>, n: nat)
    requires NulFree(s) && n > 0
    ensures CStr(s + Zeros(n)) == s && Terminated(s + Zeros(n))
  {
    var t := s + Zeros(n);
    assert t[|s|] == 0 && t[..|s|] == s;
    StrLenIs(t, |s|);
  }

  /** ASCII tolower of the C locale. */
  function Lower(b: byte): (r: byte) {
    if 65 <= b <= 90 then b + 32 else b
  }

  function LowerAll(s: seq<byte>): (r: seq<byte>)
    ensures |r| == |s|
    ensures forall i :: 0 <= i < |s| ==> r[i] == Lower(s[i])
  {
    seq(|s|, i requires 0 <= i < |s| => Lower(s[i]))
  }

  /** Where b first occurs, or the length of s. */
  function IndexOf(s: seq<byte>, b: byte): (i: nat)
    ensures i <= |s| && b !in s[..i]
    ensures i < |s| ==> s[i] == b
  {
    if s == [] || s[0] == b then 0
    else
      var i := 1 + IndexOf(s[1..], b);
      assert s[..i] == [s[0]] + s[1..][..i - 1];
      i
  }

  lemma {:induction false} IndexOfIs(s: seq<byte>, b: byte, i: nat)
    requires i < |s| && s[i] == b && b !in s[..i]
    ensures IndexOf(s, b) == i
  {
    var j := IndexOf(s, b);
    assert forall k :: 0 <= k < i ==> s[k] in s[..i];
    assert forall k :: 0 <= k < j ==> s[k] in s[..j];
  }

  lemma {:induction false} IndexOfAbsent(s: seq<byte>, b: byte)
    requires b !in s
    ensures IndexOf(s, b) == |s|
  {
  }

  function HexDigit(n: int): (c: byte)
    requires 0 <= n < 16
  {
    if n < 10 then 48 + n else 87 + n
  }

  /** The value of a hexadecimal digit of either case; -1 for anything else. */
  function HexValue(c: byte): (v: int)
    ensures -1 <= v < 16
  {
    if 48 <= c <= 57 then c - 48
    else if 97 <= Lower(c) <= 102 then Lower(c) - 87
    else -1
  }

  /** isspace of the C locale. */
  predicate IsSpace(ch: int) {
    ch == 32 || 9 <= ch <= 13
  }

  function Flatten(parts: seq<seq<byte>>): (r: seq<byte>) {
    if parts == [] then [] else parts[0] + Flatten(parts[1..])
  }

  lemma {:induction false} FlattenSnoc(parts: seq<seq<byte>>, part: seq<byte>)
    ensures Flatten(parts + [part]) == Flatten(parts) + part
    decreases parts
  {
    if parts == [] {
      assert (parts + [part])[1..] == [] && part + [] == [] + part;
    } else {
      assert (parts + [part])[1..] == parts[1..] + [part];
      FlattenSnoc(parts[1..], part);
      Grouped(parts[0], Flatten(parts[1..]), part);
    }
  }

  lemma {:induction false} Grouped(a: seq<byte>, b: seq<byte>, c: seq<byte>)
    ensures a + b + c == a + (b + c)
  {
  }
}
