/**
 The two string operations applied to a field value before it is written to
 the report: replacing line breaks by spaces, and the manual wrap that cuts a
 long value into 100-character pieces joined by line feeds.
 */
module LineWrap {

  /** Width of one piece of a manually wrapped value. */
  const ChunkWidth := 100

  /** `s.replace(from, to)` for single characters. */
  function Replace(s: string, from: char, to: char): string
    decreases |s|
  {
    if |s| == 0 then [] else [if s[0] == from then to else s[0]] + Replace(s[1..], from, to)
  }

  lemma {:induction false} ReplaceAt(s: string, from: char, to: char)
    ensures |Replace(s, from, to)| == |s|
    ensures forall i :: 0 <= i < |s| ==> Replace(s, from, to)[i] == (if s[i] == from then to else s[i])
    decreases |s|
  {
    if |s| > 0 {
      ReplaceAt(s[1..], from, to);
      assert forall i :: 1 <= i < |s| ==> s[1..][i - 1] == s[i];
    }
  }

  /** The value with every line feed, then every carriage return, replaced
      by a space. */
  function Sanitise(s: string): (r: string)
    ensures |r| == |s|
    ensures '\n' !in r && '\r' !in r
    ensures forall i :: 0 <= i < |s| ==> r[i] == (if s[i] == '\n' || s[i] == '\r' then ' ' else s[i])
  {
    ReplaceAt(s, '\n', ' ');
    ReplaceAt(Replace(s, '\n', ' '), '\r', ' ');
    Replace(Replace(s, '\n', ' '), '\r', ' ')
  }

  /** Sanitising twice is sanitising once. */
  lemma SanitiseIdempotent(s: string)
    ensures Sanitise(Sanitise(s)) == Sanitise(s)
  {
  }

  /** A value without line breaks is left as it is. */
  lemma SanitiseKeepsClean(s: string)
    requires '\n' !in s && '\r' !in s
    ensures Sanitise(s) == s
  {
  }

  /** The pieces glued back together. */
  function Concat(cs: seq<string>): string
    decreases |cs|
  {
    if |cs| == 0 then [] else cs[0] + Concat(cs[1..])
  }

  /** The list of 100-character slices `s[i:i+100]` for `i` in
      `range(0, len(s), 100)`. */
  function Chunks(s: string): seq<string>
    decreases |s|
  {
    if |s| == 0 then []
    else if |s| <= ChunkWidth then [s]
    else [s[..ChunkWidth]] + Chunks(s[ChunkWidth..])
  }

  /** There are as many pieces as `range(0, len(s), 100)` has elements. */
  lemma {:induction false} ChunkCount(s: string)
    ensures |Chunks(s)| * ChunkWidth >= |s| > (|Chunks(s)| - 1) * ChunkWidth
    ensures |Chunks(s)| == 0 <==> s == []
    ensures |Chunks(s)| == (|s| + ChunkWidth - 1) / ChunkWidth
    decreases |s|
  {
    if |s| > ChunkWidth {
      ChunkCount(s[ChunkWidth..]);
    }
  }

  /** Gluing the pieces back together gives the value. */
  lemma {:induction false} ChunksConcat(s: string)
    ensures Concat(Chunks(s)) == s
    decreases |s|
  {
    if 0 < |s| <= ChunkWidth {
      assert Concat([s]) == s + Concat([]);
    } else if |s| > ChunkWidth {
      var t := s[ChunkWidth..];
      ChunksConcat(t);
      var cs := [s[..ChunkWidth]] + Chunks(t);
      assert cs[1..] == Chunks(t);
      assert s == s[..ChunkWidth] + t;
    }
  }

  function Min(a: int, b: int): int {
    if a <= b then a else b
  }

  lemma SliceOfSuffix(s: string, d: nat, lo: nat, hi: nat)
    requires d <= |s| && lo <= hi <= |s| - d
    ensures s[d..][lo..hi] == s[d + lo..d + hi]
  {
  }

  /** Piece `k` is the slice `s[100k : 100k + 100]`, cut short at the end of
      the value, exactly as Python's slicing produces it. */
  lemma {:induction false} ChunkAt(s: string, k: nat)
    requires k < |Chunks(s)|
    ensures k * ChunkWidth < |s|
    ensures Chunks(s)[k] == s[k * ChunkWidth..Min(k * ChunkWidth + ChunkWidth, |s|)]
    decreases k
  {
    if |s| > ChunkWidth {
      var t := s[ChunkWidth..];
      assert Chunks(s) == [s[..ChunkWidth]] + Chunks(t);
      if k > 0 {
        ChunkAt(t, k - 1);
        var lo := (k - 1) * ChunkWidth;
        var hi := Min(lo + ChunkWidth, |t|);
        assert lo + ChunkWidth == k * ChunkWidth;
        assert hi + ChunkWidth == Min(k * ChunkWidth + ChunkWidth, |s|);
        SliceOfSuffix(s, ChunkWidth, lo, hi);
      }
    }
  }

  /** Every piece is non-empty and at most 100 characters long, and every
      piece but the last is exactly 100. */
  lemma ChunkSizes(s: string)
    ensures forall k :: 0 <= k < |Chunks(s)| ==> 0 < |Chunks(s)[k]| <= ChunkWidth
    ensures forall k :: 0 <= k < |Chunks(s)| - 1 ==> |Chunks(s)[k]| == ChunkWidth
  {
    ChunkCount(s);
    forall k | 0 <= k < |Chunks(s)|
      ensures 0 < |Chunks(s)[k]| <= ChunkWidth
      ensures k < |Chunks(s)| - 1 ==> |Chunks(s)[k]| == ChunkWidth
    {
      ChunkAt(s, k);
    }
  }

  lemma ChunksAreSlices(s: string)
    ensures forall k :: 0 <= k < |Chunks(s)| ==>
      k * ChunkWidth < |s| && Chunks(s)[k] == s[k * ChunkWidth..Min(k * ChunkWidth + ChunkWidth, |s|)]
  {
    forall k | 0 <= k < |Chunks(s)|
      ensures k * ChunkWidth < |s| && Chunks(s)[k] == s[k * ChunkWidth..Min(k * ChunkWidth + ChunkWidth, |s|)]
    {
      ChunkAt(s, k);
    }
  }

  /** `sep.join(cs)`. */
  function Join(cs: seq<string>, sep: char): string
    decreases |cs|
  {
    if |cs| == 0 then []
    else if |cs| == 1 then cs[0]
    else cs[0] + [sep] + Join(cs[1..], sep)
  }

  /** The manually wrapped value: its pieces joined by line feeds. */
  function Wrap(s: string): string {
    Join(Chunks(s), '\n')
  }

  /** The string with every occurrence of `c` deleted. */
  function Remove(s: string, c: char): (r: string)
    ensures c !in r
    decreases |s|
  {
    if |s| == 0 then []
    else (if s[0] == c then [] else [s[0]]) + Remove(s[1..], c)
  }

  lemma {:induction false} RemoveAppend(a: string, b: string, c: char)
    ensures Remove(a + b, c) == Remove(a, c) + Remove(b, c)
    decreases |a|
  {
    if |a| > 0 {
      assert (a + b)[1..] == a[1..] + b;
      RemoveAppend(a[1..], b, c);
    } else {
      assert a + b == b;
    }
  }

  lemma {:induction false} RemoveAbsent(s: string, c: char)
    requires c !in s
    ensures Remove(s, c) == s
    decreases |s|
  {
    if |s| > 0 {
      RemoveAbsent(s[1..], c);
    }
  }

  /** Deleting the separators of a join whose pieces do not contain the
      separator gives back the concatenated pieces. */
  lemma {:induction false} RemoveJoin(cs: seq<string>, sep: char)
    requires forall k :: 0 <= k < |cs| ==> sep !in cs[k]
    ensures Remove(Join(cs, sep), sep) == Concat(cs)
    decreases |cs|
  {
    if |cs| == 1 {
      RemoveAbsent(cs[0], sep);
      assert Concat(cs) == cs[0] + Concat([]);
    } else if |cs| > 1 {
      RemoveJoin(cs[1..], sep);
      RemoveAppend(cs[0] + [sep], Join(cs[1..], sep), sep);
      RemoveAppend(cs[0], [sep], sep);
      RemoveAbsent(cs[0], sep);
      assert Remove([sep], sep) == [];
    }
  }

  /** Every piece is a slice of the value, so it holds none of the value's
      absent characters. */
  lemma ChunksOmit(s: string, c: char)
    requires c !in s
    ensures forall k :: 0 <= k < |Chunks(s)| ==> c !in Chunks(s)[k]
  {
    ChunksAreSlices(s);
  }

  /** Deleting the line feeds of a wrapped value that had none gives back
      the value exactly. */
  lemma WrapRecovers(s: string)
    requires '\n' !in s
    ensures Remove(Wrap(s), '\n') == s
  {
    ChunksOmit(s, '\n');
    RemoveJoin(Chunks(s), '\n');
    ChunksConcat(s);
  }

  /** `s.split(sep)`: the pieces between separators; the empty string splits
      into one empty piece. */
  function Split(s: string, sep: char): (parts: seq<string>)
    ensures |parts| > 0
    ensures forall k :: 0 <= k < |parts| ==> sep !in parts[k]
    decreases |s|
  {
    if |s| == 0 then [[]]
    else
      var rest := Split(s[1..], sep);
      if s[0] == sep then [[]] + rest
      else [[s[0]] + rest[0]] + rest[1..]
  }

  lemma {:induction false} SplitPlain(a: string, sep: char)
    requires sep !in a
    ensures Split(a, sep) == [a]
    decreases |a|
  {
    if |a| > 0 {
      SplitPlain(a[1..], sep);
      assert [a[0]] + a[1..] == a;
    }
  }

  lemma {:induction false} SplitAfterPiece(a: string, sep: char, b: string)
    requires sep !in a
    ensures Split(a + [sep] + b, sep) == [a] + Split(b, sep)
    decreases |a|
  {
    if |a| == 0 {
      assert a + [sep] + b == [sep] + b;
      assert ([sep] + b)[1..] == b;
    } else {
      assert (a + [sep] + b)[1..] == a[1..] + [sep] + b;
      SplitAfterPiece(a[1..], sep, b);
      assert [a[0]] + a[1..] == a;
    }
  }

  /** Splitting a join at its separator gives back the pieces. */
  lemma {:induction false} SplitJoin(cs: seq<string>, sep: char)
    requires |cs| > 0
    requires forall k :: 0 <= k < |cs| ==> sep !in cs[k]
    ensures Split(Join(cs, sep), sep) == cs
    decreases |cs|
  {
    if |cs| == 1 {
      SplitPlain(cs[0], sep);
    } else {
      SplitJoin(cs[1..], sep);
      SplitAfterPiece(cs[0], sep, Join(cs[1..], sep));
      assert [cs[0]] + cs[1..] == cs;
    }
  }

  /** The lines of a wrapped non-empty value are exactly its 100-character
      pieces. */
  lemma WrapLines(s: string)
    requires '\n' !in s
    ensures s != [] ==> Split(Wrap(s), '\n') == Chunks(s)
  {
    if s != [] {
      ChunkCount(s);
      ChunksOmit(s, '\n');
      SplitJoin(Chunks(s), '\n');
    }
  }
}
