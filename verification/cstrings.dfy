/** C string conventions the modalias builder relies on: the NUL terminator,
    reading a string back out of a buffer, the bounded formatter `snprintf`
    and `strchr`. Buffers are byte sequences; a write returns the new buffer. */
module CStrings {

  datatype Option<+T> = None | Some(value: T)

  const NUL: char := '\0'

  /** A C string cannot hold its own terminator. */
  predicate NoNul(s: seq<char>) {
    forall k :: 0 <= k < |s| ==> s[k] != NUL
  }

  /** The C string stored at the start of `b`: the longest prefix without a NUL. */
  function CString(b: seq<char>): (r: seq<char>)
    ensures NoNul(r)
    ensures r <= b
    ensures |r| < |b| ==> b[|r|] == NUL
  {
    if b == [] || b[0] == NUL then [] else [b[0]] + CString(b[1..])
  }

  /** A buffer that holds `s` followed by a NUL reads back as exactly `s`. */
  lemma {:induction false} TerminatedAt(b: seq<char>, s: seq<char>)
    requires NoNul(s)
    requires |s| < |b| && b[..|s|] == s && b[|s|] == NUL
    ensures CString(b) == s
    decreases |s|
  {
    if s != [] {
      assert b[0] == s[0];
      assert b[1..][..|s| - 1] == s[1..];
      TerminatedAt(b[1..], s[1..]);
    }
  }

  /** The outcome of `snprintf`: the buffer after the call and the return value. */
  datatype Formatted = Formatted(buf: seq<char>, size: nat)

  /** `snprintf(buf + at, n, "%s", s)`: with n > 0 it stores the first
      min(|s|, n - 1) characters of `s` and a NUL after them; with n == 0 it
      stores nothing. Either way it returns |s|, the untruncated length. */
  function Snprintf(buf: seq<char>, at: nat, n: nat, s: seq<char>): (r: Formatted)
    requires at + n <= |buf|
    ensures r.size == |s|
    ensures |r.buf| == |buf|
    ensures n == 0 ==> r.buf == buf
    ensures n > 0 ==>
      var w := if |s| < n then |s| else n - 1;
      && r.buf[at..at + w] == s[..w]
      && r.buf[at + w] == NUL
      && forall k :: 0 <= k < |buf| && !(at <= k <= at + w) ==> r.buf[k] == buf[k]
  {
    if n == 0 then Formatted(buf, |s|)
    else
      var w := if |s| < n then |s| else n - 1;
      var out := buf[..at] + s[..w] + [NUL] + buf[at + w + 1..];
      assert out[at..at + w] == s[..w];
      Formatted(out, |s|)
  }

  /** `strchr(b + i, ch)` for a character other than NUL: the first position
      at or after `i` holding `ch`, or None when the terminator comes first. */
  function StrChr(b: seq<char>, i: nat, ch: char): (r: Option<nat>)
    requires ch != NUL
    requires exists e :: i <= e < |b| && b[e] == NUL
    ensures r.Some? ==>
      && i <= r.value < |b| && b[r.value] == ch
      && forall k :: i <= k < r.value ==> b[k] != ch && b[k] != NUL
    ensures r.None? ==>
      exists e :: i <= e < |b| && b[e] == NUL && forall k :: i <= k < e ==> b[k] != ch
    decreases |b| - i
  {
    if b[i] == ch then Some(i)
    else if b[i] == NUL then None
    else StrChr(b, i + 1, ch)
  }
}
