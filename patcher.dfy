/**
  The byte-buffer edits of dead-code removal: blanking an unused
  declaration in a production file (extended back to the line break before
  it) and the range replacement used on test files. Both rewrite the buffer
  in place and never change its size.
 */
module Patcher {
  import opened Syntax

  /** `lastIndex(of:)`: the position of the last occurrence of `b` in `s`, if any. */
  function LastIndexOf(s: seq<Byte>, b: Byte): (r: Option<nat>)
    ensures r.Some? ==> r.value < |s| && s[r.value] == b && forall j :: r.value < j < |s| ==> s[j] != b
    ensures r.None? ==> forall j :: 0 <= j < |s| ==> s[j] != b
  {
    if s == [] then None
    else if s[|s| - 1] == b then Some(|s| - 1)
    else LastIndexOf(s[..|s| - 1], b)
  }

  /**
    Where blanking starts for a declaration at `start`: the last line break
    strictly before it, or `start` itself when there is none. The line break
    itself is inside the blanked range.
   */
  function LineStart(s: seq<Byte>, start: nat): (r: nat)
    requires start <= |s|
    ensures r <= start
    ensures r < start ==> s[r] == Newline && forall j :: r < j < start ==> s[j] != Newline
    ensures r == start ==> forall j :: 0 <= j < start ==> s[j] != Newline
  {
    match LastIndexOf(s[..start], Newline)
    case Some(k) => k
    case None => start
  }

  /** `s` with the positions `[lo, hi)` overwritten by `b`. */
  function Fill(s: seq<Byte>, lo: nat, hi: nat, b: Byte): (r: seq<Byte>)
    requires lo <= hi <= |s|
    ensures |r| == |s|
    ensures forall i :: 0 <= i < |s| ==> r[i] == (if lo <= i < hi then b else s[i])
  {
    s[..lo] + seq(hi - lo, _ => b) + s[hi..]
  }

  /** The blanked range of a declaration fits the buffer. */
  predicate RemovalFits(s: seq<Byte>, offset: int, length: int)
  {
    0 <= offset <= |s| && LineStart(s, offset) <= offset + length <= |s|
  }

  /** The content after removing the declaration at `[offset, offset + length)`. */
  function Removed(s: seq<Byte>, offset: int, length: int): seq<Byte>
    requires RemovalFits(s, offset, length)
  {
    Fill(s, LineStart(s, offset), offset + length, Space)
  }

  /**
    `removeUnusedDecls` for one declaration: every byte from the preceding
    line break up to the end of the declaration becomes a space; the rest
    of the buffer is untouched.
   */
  method RemoveUnusedDecls(content: array<Byte>, offset: int, length: int)
    requires RemovalFits(content[..], offset, length)
    modifies content
    ensures content[..] == Removed(old(content[..]), offset, length)
  {
    var start := offset;
    var end := offset + length;
    var lineIdx := match LastIndexOf(content[..start], Newline)
                   case Some(k) => k
                   case None => start;
    forall i | lineIdx <= i < end {
      content[i] := Space;
    }
  }

  /** Whether `replace` touches the buffer at all: only for `0 < offset < length`. */
  predicate Applies(offset: int, length: int)
  {
    0 < offset < length
  }

  /** `replace` reads `length` as the END of the range, not its size. */
  function Replaced(s: seq<Byte>, offset: int, length: int, another: Byte): seq<Byte>
    requires Applies(offset, length) ==> length <= |s|
  {
    if Applies(offset, length) then Fill(s, offset, length, another) else s
  }

  /** `replace`: overwrites `[offset, length)` with `another` when `0 < offset < length`. */
  method Replace(content: array<Byte>, offset: int, length: int, another: Byte)
    requires Applies(offset, length) ==> length <= content.Length
    modifies content
    ensures content[..] == Replaced(old(content[..]), offset, length, another)
  {
    var start := offset;
    var end := length;
    if start > 0 && end > start {
      forall i | start <= i < end {
        content[i] := another;
      }
    }
  }

  /** The size is kept, bytes in `[offset, length)` become `another` when it applies, all others are kept. */
  lemma ReplacedBytes(s: seq<Byte>, offset: int, length: int, another: Byte)
    requires Applies(offset, length) ==> length <= |s|
    ensures |Replaced(s, offset, length, another)| == |s|
    ensures forall i :: 0 <= i < |s| ==>
              Replaced(s, offset, length, another)[i]
              == (if Applies(offset, length) && offset <= i < length then another else s[i])
  {
  }

  /**
    A range whose size is smaller than its offset is left as it is: the
    size is compared against the offset as if it were an end index.
   */
  lemma ReplaceIgnoresShortRange(s: seq<Byte>, offset: int, length: int, another: Byte)
    requires 0 < length <= offset && offset + length <= |s|
    ensures Replaced(s, offset, length, another) == s
  {
  }

  /** Number of occurrences of `b` in `s`. */
  function Count(s: seq<Byte>, b: Byte): (r: nat)
    ensures r <= |s|
  {
    if s == [] then 0 else (if s[0] == b then 1 else 0) + Count(s[1..], b)
  }

  lemma {:induction false} CountAppend(a: seq<Byte>, c: seq<Byte>, b: Byte)
    ensures Count(a + c, b) == Count(a, b) + Count(c, b)
  {
    if a == [] {
      assert a + c == c;
    } else {
      assert (a + c)[0] == a[0];
      assert (a + c)[1..] == a[1..] + c;
      CountAppend(a[1..], c, b);
    }
  }

  lemma {:induction false} CountAbsent(s: seq<Byte>, b: Byte)
    requires forall i :: 0 <= i < |s| ==> s[i] != b
    ensures Count(s, b) == 0
  {
    if s != [] {
      CountAbsent(s[1..], b);
    }
  }

  /** Filling with a byte other than `b` removes exactly the `b`s that were inside the range. */
  lemma FillCount(s: seq<Byte>, lo: nat, hi: nat, fill: Byte, b: Byte)
    requires lo <= hi <= |s| && fill != b
    ensures Count(Fill(s, lo, hi, fill), b) == Count(s, b) - Count(s[lo..hi], b)
  {
    var blanks := seq(hi - lo, _ => fill);
    CountAbsent(blanks, b);
    CountAppend(s[..lo] + blanks, s[hi..], b);
    CountAppend(s[..lo], blanks, b);
    assert s == s[..lo] + s[lo..hi] + s[hi..];
    CountAppend(s[..lo] + s[lo..hi], s[hi..], b);
    CountAppend(s[..lo], s[lo..hi], b);
  }

  /**
    Removal does not keep the line structure: the line breaks inside the
    blanked range are lost, and when there is a line break before the
    declaration that one is lost too, so the file has strictly fewer lines.
   */
  lemma RemovalLosesLineBreaks(s: seq<Byte>, offset: int, length: int)
    requires RemovalFits(s, offset, length)
    ensures Count(Removed(s, offset, length), Newline)
            == Count(s, Newline) - Count(s[LineStart(s, offset)..offset + length], Newline)
    ensures LineStart(s, offset) < offset && 0 <= length ==> Count(Removed(s, offset, length), Newline) < Count(s, Newline)
  {
    var lo := LineStart(s, offset);
    var hi := offset + length;
    FillCount(s, lo, hi, Space, Newline);
    if lo < offset && 0 <= length {
      var r := s[lo..hi];
      assert r[0] == Newline;
      assert r == [r[0]] + r[1..];
      CountAppend([r[0]], r[1..], Newline);
    }
  }
}
