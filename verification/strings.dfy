/**
 The Python string operations main.py uses: `str.split(sep, maxsplit)` with an explicit
 non-empty separator (with its leftmost search, `Find`), `sep.join(parts)`, and `s[:n]`.
 */
module Strings {
  import opened Wrappers

  function Min(a: int, b: int): int {
    if a <= b then a else b
  }

  /** `sep` occurs in `s` starting at index `j`. */
  predicate OccursAt(s: string, sep: string, j: int) {
    0 <= j && j + |sep| <= |s| && s[j..j + |sep|] == sep
  }

  /** No occurrence of `sep` in `s` starts before index `k`. */
  predicate NoneBefore(s: string, sep: string, k: int) {
    forall j :: 0 <= j < k ==> !OccursAt(s, sep, j)
  }

  /** `t` is a substring of `s` (Python's `t in s`). */
  predicate Contains(s: string, t: string) {
    exists j :: 0 <= j <= |s| && OccursAt(s, t, j)
  }

  /**
   The first occurrence of `sep` in `part + sep` is the appended one: `part` can be the
   piece that `split` cuts off in front of a separator.
   */
  predicate FirstSepAtEnd(part: string, sep: string) {
    NoneBefore(part + sep, sep, |part|)
  }

  lemma ConcatAssoc(a: string, b: string, c: string)
    ensures a + b + c == a + (b + c)
  {
  }

  /** Python's `s[:n]` for `n >= 0`: the first `n` characters, or all of `s` if it is shorter. */
  function Take(s: string, n: nat): (r: string)
    ensures r <= s && |r| == Min(n, |s|)
  {
    if |s| <= n then s else s[..n]
  }

  /** Leftmost occurrence of `sep` in `s` at or after `from`. */
  function FindFrom(s: string, sep: string, from: nat): (r: Option<nat>)
    requires |sep| > 0
    requires NoneBefore(s, sep, from)
    ensures r.Some? ==> OccursAt(s, sep, r.value) && NoneBefore(s, sep, r.value)
    ensures r.None? ==> NoneBefore(s, sep, |s|)
    decreases |s| - from
  {
    if from + |sep| > |s| then None
    else if s[from..from + |sep|] == sep then Some(from)
    else FindFrom(s, sep, from + 1)
  }

  /** Python's `s.find(sep)`, with `None` for `-1`. */
  function Find(s: string, sep: string): (r: Option<nat>)
    requires |sep| > 0
    ensures r.Some? ==> OccursAt(s, sep, r.value) && NoneBefore(s, sep, r.value)
    ensures r.None? ==> NoneBefore(s, sep, |s|)
  {
    FindFrom(s, sep, 0)
  }

  /** The summed length of all pieces. */
  function TotalLength(parts: seq<string>): nat
    decreases |parts|
  {
    if |parts| == 0 then 0 else |parts[0]| + TotalLength(parts[1..])
  }

  /**
   Python's `str.join`: the pieces in order with one separator between neighbours, so the
   text is as long as the pieces plus one separator per gap, and opens with the first piece;
   no pieces give the empty string.
   */
  function Join(parts: seq<string>, sep: string): (r: string)
    ensures |parts| == 0 ==> r == ""
    ensures |parts| > 0 ==> |r| == TotalLength(parts) + (|parts| - 1) * |sep|
    ensures |parts| > 0 ==> parts[0] <= r
    decreases |parts|
  {
    if |parts| == 0 then ""
    else if |parts| == 1 then parts[0]
    else
      var rest := Join(parts[1..], sep);
      assert (|parts| - 1) * |sep| == |sep| + (|parts| - 2) * |sep|;
      parts[0] + sep + rest
  }

  /** Where piece `i` starts in the joined text: the pieces before it and one separator each. */
  function PieceOffset(parts: seq<string>, sep: string, i: nat): nat
    requires i <= |parts|
  {
    TotalLength(parts[..i]) + i * |sep|
  }

  /**
   The content of a join, position by position: piece `i` sits at `PieceOffset(parts, sep, i)`,
   and a separator follows every piece but the last. With the length in `Join`'s contract
   this fixes the text.
   */
  lemma {:induction false} JoinLayout(parts: seq<string>, sep: string, i: nat)
    requires i < |parts|
    ensures PieceOffset(parts, sep, i) + |parts[i]| <= |Join(parts, sep)|
    ensures Join(parts, sep)[PieceOffset(parts, sep, i)..PieceOffset(parts, sep, i) + |parts[i]|] == parts[i]
    ensures i < |parts| - 1 ==> PieceOffset(parts, sep, i) + |parts[i]| + |sep| <= |Join(parts, sep)|
    ensures i < |parts| - 1 ==>
      Join(parts, sep)[PieceOffset(parts, sep, i) + |parts[i]|..PieceOffset(parts, sep, i) + |parts[i]| + |sep|] == sep
    decreases i
  {
    if i == 0 {
      JoinLayoutFirst(parts, sep);
    } else {
      JoinLayout(parts[1..], sep, i - 1);
      PieceOffsetCons(parts, sep, i);
      JoinLayoutStep(parts, sep, i);
    }
  }

  lemma JoinLayoutFirst(parts: seq<string>, sep: string)
    requires 0 < |parts|
    ensures PieceOffset(parts, sep, 0) == 0
    ensures |parts[0]| <= |Join(parts, sep)| && Join(parts, sep)[..|parts[0]|] == parts[0]
    ensures |parts| > 1 ==> |parts[0]| + |sep| <= |Join(parts, sep)|
    ensures |parts| > 1 ==> Join(parts, sep)[|parts[0]|..|parts[0]| + |sep|] == sep
  {
    assert parts[..0] == [];
    if |parts| > 1 {
      var j := Join(parts, sep);
      assert j == parts[0] + sep + Join(parts[1..], sep);
      assert j[..|parts[0]|] == parts[0];
      assert j[|parts[0]|..|parts[0]| + |sep|] == sep;
    }
  }

  /** Piece `i` of `parts` starts one first piece and one separator after piece `i - 1` of the rest. */
  lemma PieceOffsetCons(parts: seq<string>, sep: string, i: nat)
    requires 0 < i < |parts|
    ensures PieceOffset(parts, sep, i) == |parts[0]| + |sep| + PieceOffset(parts[1..], sep, i - 1)
  {
    assert parts[..i] == [parts[0]] + parts[1..][..i - 1];
    assert parts[..i][1..] == parts[1..][..i - 1];
    assert i * |sep| == |sep| + (i - 1) * |sep|;
  }

  lemma JoinLayoutStep(parts: seq<string>, sep: string, i: nat)
    requires 0 < i < |parts|
    requires PieceOffset(parts, sep, i) == |parts[0]| + |sep| + PieceOffset(parts[1..], sep, i - 1)
    requires var o := PieceOffset(parts[1..], sep, i - 1);
      && o + |parts[i]| <= |Join(parts[1..], sep)|
      && Join(parts[1..], sep)[o..o + |parts[i]|] == parts[i]
      && (i < |parts| - 1 ==> o + |parts[i]| + |sep| <= |Join(parts[1..], sep)|)
      && (i < |parts| - 1 ==> Join(parts[1..], sep)[o + |parts[i]|..o + |parts[i]| + |sep|] == sep)
    ensures PieceOffset(parts, sep, i) + |parts[i]| <= |Join(parts, sep)|
    ensures Join(parts, sep)[PieceOffset(parts, sep, i)..PieceOffset(parts, sep, i) + |parts[i]|] == parts[i]
    ensures i < |parts| - 1 ==> PieceOffset(parts, sep, i) + |parts[i]| + |sep| <= |Join(parts, sep)|
    ensures i < |parts| - 1 ==>
      Join(parts, sep)[PieceOffset(parts, sep, i) + |parts[i]|..PieceOffset(parts, sep, i) + |parts[i]| + |sep|] == sep
  {
    var front := parts[0] + sep;
    var r := Join(parts[1..], sep);
    var o := PieceOffset(parts[1..], sep, i - 1);
    assert Join(parts, sep) == front + r;
    ShiftSlice(front, r, o, o + |parts[i]|);
    if i < |parts| - 1 {
      ShiftSlice(front, r, o + |parts[i]|, o + |parts[i]| + |sep|);
    }
  }

  /** A slice of `b` reappears shifted by `|a|` in `a + b`. */
  lemma ShiftSlice(a: string, b: string, lo: nat, hi: nat)
    requires lo <= hi <= |b|
    ensures (a + b)[|a| + lo..|a| + hi] == b[lo..hi]
  {
  }

  /** The prefix order on strings is transitive. */
  lemma PrefixTrans(a: string, b: string, c: string)
    requires a <= b && b <= c
    ensures a <= c
  {
    assert b[..|a|] == a;
  }

  /** Occurrences inside a prefix `t` of `s` are occurrences in `s`, and conversely. */
  lemma OccursInPrefix(s: string, t: string, sep: string, j: int)
    requires t <= s && j + |sep| <= |t|
    ensures OccursAt(t, sep, j) <==> OccursAt(s, sep, j)
  {
    if 0 <= j {
      assert t[j..j + |sep|] == s[j..j + |sep|];
    }
  }

  /**
   Python's `s.split(sep, maxsplit)` for a non-empty `sep` and `maxsplit >= 0`: cut at the
   leftmost separator, at most `maxsplit` times, scanning left to right.
   */
  function SplitN(s: string, sep: string, maxsplit: nat): (parts: seq<string>)
    requires |sep| > 0
    ensures 1 <= |parts| <= maxsplit + 1
    ensures Join(parts, sep) == s
    ensures forall i :: 0 <= i < |parts| - 1 ==> FirstSepAtEnd(parts[i], sep)
    ensures |parts| <= maxsplit ==> NoneBefore(parts[|parts| - 1], sep, |parts[|parts| - 1]|)
    decreases maxsplit
  {
    if maxsplit == 0 then [s]
    else match Find(s, sep)
      case None => [s]
      case Some(i) =>
        var head, tail := s[..i], s[i + |sep|..];
        var rest := SplitN(tail, sep, maxsplit - 1);
        CutStep(s, sep, i, rest);
        var parts := [head] + rest;
        assert parts[|parts| - 1] == rest[|rest| - 1];
        parts
  }

  /** One step of `SplitN`: the piece in front of the leftmost separator, then the split rest. */
  lemma CutStep(s: string, sep: string, i: nat, rest: seq<string>)
    requires OccursAt(s, sep, i) && NoneBefore(s, sep, i)
    requires |rest| >= 1 && Join(rest, sep) == s[i + |sep|..]
    requires forall k :: 0 <= k < |rest| - 1 ==> FirstSepAtEnd(rest[k], sep)
    ensures Join([s[..i]] + rest, sep) == s
    ensures forall k :: 0 <= k < |rest| ==> FirstSepAtEnd(([s[..i]] + rest)[k], sep)
  {
    var parts := [s[..i]] + rest;
    CutAtFirst(s, sep, i);
    JoinCons(s[..i], rest, sep);
    forall k | 0 < k < |rest|
      ensures FirstSepAtEnd(parts[k], sep)
    {
      assert parts[k] == rest[k - 1];
    }
  }

  lemma JoinCons(head: string, rest: seq<string>, sep: string)
    requires |rest| >= 1
    ensures Join([head] + rest, sep) == head + sep + Join(rest, sep)
  {
    assert ([head] + rest)[1..] == rest;
  }

  /** Cutting `s` at its leftmost separator: the piece in front ends at its first separator. */
  lemma CutAtFirst(s: string, sep: string, i: nat)
    requires OccursAt(s, sep, i) && NoneBefore(s, sep, i)
    ensures s == s[..i] + sep + s[i + |sep|..]
    ensures FirstSepAtEnd(s[..i], sep)
  {
    var head := s[..i];
    assert s[i..i + |sep|] == sep;
    assert s == s[..i] + s[i..i + |sep|] + s[i + |sep|..];
    assert head + sep <= s;
    forall j | 0 <= j < |head|
      ensures !OccursAt(head + sep, sep, j)
    {
      OccursInPrefix(s, head + sep, sep, j);
    }
  }

  /**
   `split` undoes `join`: when every piece but the last ends at its first separator, splitting
   the joined text `|parts| - 1` times gives the pieces back.
   */
  lemma {:induction false} SplitJoin(parts: seq<string>, sep: string)
    requires |sep| > 0 && |parts| >= 1
    requires forall i :: 0 <= i < |parts| - 1 ==> FirstSepAtEnd(parts[i], sep)
    ensures SplitN(Join(parts, sep), sep, |parts| - 1) == parts
    decreases |parts|
  {
    if |parts| > 1 {
      var head, rest := parts[0], parts[1..];
      assert parts == [head] + rest;
      var tail := Join(rest, sep);
      var s := head + sep + tail;
      JoinCons(head, rest, sep);
      FirstSepInFront(head, sep, tail);
      assert s[..|head|] == head;
      assert s[|head| + |sep|..] == tail;
      assert SplitN(s, sep, |parts| - 1) == [head] + SplitN(tail, sep, |rest| - 1);
      forall i | 0 <= i < |rest| - 1
        ensures FirstSepAtEnd(rest[i], sep)
      {
        assert rest[i] == parts[i + 1];
      }
      SplitJoin(rest, sep);
    }
  }

  /** In `head + sep + tail`, when `head` ends at its first separator, the leftmost one follows `head`. */
  lemma FirstSepInFront(head: string, sep: string, tail: string)
    requires |sep| > 0 && FirstSepAtEnd(head, sep)
    ensures Find(head + sep + tail, sep) == Some(|head|)
  {
    var s := head + sep + tail;
    assert s[|head|..|head| + |sep|] == sep;
    assert head + sep <= s;
    forall j | 0 <= j < |head|
      ensures !OccursAt(s, sep, j)
    {
      OccursInPrefix(s, head + sep, sep, j);
    }
    assert OccursAt(s, sep, |head|);
  }

  /** Number of occurrences of the character `c` in `s`. */
  function CountChar(s: string, c: char): nat
    decreases |s|
  {
    if |s| == 0 then 0 else (if s[0] == c then 1 else 0) + CountChar(s[1..], c)
  }

  lemma {:induction false} CountCharAppend(a: string, b: string, c: char)
    ensures CountChar(a + b, c) == CountChar(a, c) + CountChar(b, c)
    decreases |a|
  {
    if |a| > 0 {
      assert (a + b)[1..] == a[1..] + b;
      CountCharAppend(a[1..], b, c);
    } else {
      assert a + b == b;
    }
  }

  lemma {:induction false} CountCharZero(s: string, c: char)
    ensures CountChar(s, c) == 0 <==> c !in s
    decreases |s|
  {
    if |s| > 0 {
      CountCharZero(s[1..], c);
      assert s == [s[0]] + s[1..];
    }
  }

  /** For a one-character separator, `NoneBefore` over the whole string means the character is absent. */
  lemma NoneBeforeChar(s: string, c: char)
    ensures NoneBefore(s, [c], |s|) <==> c !in s
  {
    if c in s {
      var j :| 0 <= j < |s| && s[j] == c;
      assert s[j..j + 1] == [c];
      assert OccursAt(s, [c], j);
    } else {
      forall j | 0 <= j < |s|
        ensures !OccursAt(s, [c], j)
      {
        assert s[j..j + 1] == [s[j]];
      }
    }
  }

  /** For a one-character separator, `FirstSepAtEnd` means the character is absent. */
  lemma FirstSepAtEndChar(part: string, c: char)
    ensures FirstSepAtEnd(part, [c]) <==> c !in part
  {
    var t := part + [c];
    if c in part {
      var j :| 0 <= j < |part| && part[j] == c;
      assert t[j..j + 1] == [c];
      assert OccursAt(t, [c], j);
    } else {
      forall j | 0 <= j < |part|
        ensures !OccursAt(t, [c], j)
      {
        assert t[j..j + 1] == [part[j]];
      }
    }
  }

  /** Joining pieces free of `c` with `c` adds exactly one `c` per gap. */
  lemma {:induction false} CountCharJoin(parts: seq<string>, c: char)
    requires |parts| >= 1
    requires forall i :: 0 <= i < |parts| - 1 ==> c !in parts[i]
    ensures CountChar(Join(parts, [c]), c) == |parts| - 1 + CountChar(parts[|parts| - 1], c)
    decreases |parts|
  {
    if |parts| > 1 {
      var rest := parts[1..];
      assert forall i :: 0 <= i < |rest| - 1 ==> c !in rest[i] by {
        forall i | 0 <= i < |rest| - 1
          ensures c !in rest[i]
        {
          assert rest[i] == parts[i + 1];
        }
      }
      CountCharJoin(rest, c);
      CountCharAppend(parts[0] + [c], Join(rest, [c]), c);
      CountCharAppend(parts[0], [c], c);
      CountCharZero(parts[0], c);
      assert CountChar([c], c) == 1;
    }
  }

  /**
   Splitting on a single character `c` yields one piece more than the number of `c`s, capped
   at `maxsplit + 1`.
   */
  lemma SplitCountChar(s: string, c: char, maxsplit: nat)
    ensures |SplitN(s, [c], maxsplit)| == Min(CountChar(s, c), maxsplit) + 1
  {
    var parts := SplitN(s, [c], maxsplit);
    var n := |parts|;
    var last := parts[n - 1];
    forall i | 0 <= i < n - 1
      ensures c !in parts[i]
    {
      FirstSepAtEndChar(parts[i], c);
    }
    CountCharJoin(parts, c);
    assert CountChar(s, c) == n - 1 + CountChar(last, c);
    if n <= maxsplit {
      NoneBeforeChar(last, c);
      CountCharZero(last, c);
      assert CountChar(s, c) == n - 1;
    } else {
      assert n == maxsplit + 1;
    }
  }
}
