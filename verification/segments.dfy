/** `s.split('/')` and `segments.join('/')` with JavaScript's semantics:
    splitting never yields an empty array, a leading separator yields an
    empty first segment, and joining the split reproduces the string. */
module Segments {
  import opened Common

  const Sep: char := '/'

  /** `s.split('/')` */
  function Split(s: string): (r: seq<string>)
    ensures |r| >= 1
    ensures forall i :: 0 <= i < |r| ==> Sep !in r[i]
    decreases |s|
  {
    if |s| == 0 then [""]
    else
      var rest := Split(s[1..]);
      if s[0] == Sep then [""] + rest
      else [[s[0]] + rest[0]] + rest[1..]
  }

  /** `segments.join('/')` */
  function Join(segs: seq<string>): string
    decreases |segs|
  {
    if |segs| == 0 then ""
    else if |segs| == 1 then segs[0]
    else segs[0] + [Sep] + Join(segs[1..])
  }

  /** There is one more segment than there are separators. */
  lemma {:induction false} SplitCount(s: string)
    ensures |Split(s)| == CountChar(s, Sep) + 1
    decreases |s|
  {
    if |s| > 0 {
      SplitCount(s[1..]);
    }
  }

  /** Joining the unmodified split reproduces the original string. */
  lemma {:induction false} JoinSplit(s: string)
    ensures Join(Split(s)) == s
    decreases |s|
  {
    if |s| > 0 {
      var rest := Split(s[1..]);
      JoinSplit(s[1..]);
      if s[0] == Sep {
        assert ([""] + rest)[1..] == rest;
        assert Join([""] + rest) == "" + [Sep] + Join(rest);
        assert s == [s[0]] + s[1..];
      } else {
        var segs := [[s[0]] + rest[0]] + rest[1..];
        if |rest| == 1 {
          assert Join(segs) == [s[0]] + rest[0];
        } else {
          assert segs[1..] == rest[1..];
          assert Join(segs) == [s[0]] + rest[0] + [Sep] + Join(rest[1..]);
          assert Join(rest) == rest[0] + [Sep] + Join(rest[1..]);
        }
        assert s == [s[0]] + s[1..];
      }
    }
  }

  /** A string without separators is a single segment. */
  lemma {:induction false} SplitNoSep(x: string)
    requires Sep !in x
    ensures Split(x) == [x]
    decreases |x|
  {
    if |x| > 0 {
      assert Sep !in x[1..];
      SplitNoSep(x[1..]);
      assert x == [x[0]] + x[1..];
    }
  }

  /** A separator-free prefix followed by a separator becomes the first
      segment, and the rest of the string is split independently. */
  lemma {:induction false} SplitCons(x: string, y: string)
    requires Sep !in x
    ensures Split(x + [Sep] + y) == [x] + Split(y)
    decreases |x|
  {
    if |x| == 0 {
      assert x + [Sep] + y == [Sep] + y;
      assert ([Sep] + y)[1..] == y;
    } else {
      var s := x + [Sep] + y;
      assert s[1..] == x[1..] + [Sep] + y;
      assert Sep !in x[1..];
      SplitCons(x[1..], y);
      assert x == [x[0]] + x[1..];
    }
  }

  /** Splitting a join of separator-free segments gives the segments back. */
  lemma {:induction false} SplitJoin(segs: seq<string>)
    requires |segs| >= 1
    requires forall i :: 0 <= i < |segs| ==> Sep !in segs[i]
    ensures Split(Join(segs)) == segs
    decreases |segs|
  {
    if |segs| == 1 {
      SplitNoSep(segs[0]);
    } else {
      SplitJoin(segs[1..]);
      SplitCons(segs[0], Join(segs[1..]));
      assert [segs[0]] + segs[1..] == segs;
    }
  }

  /** The first segment is the longest separator-free prefix: the string
      either ends after it or continues with a separator. */
  lemma {:induction false} SplitHead(s: string)
    ensures StartsWith(s, Split(s)[0])
    ensures |Split(s)[0]| == |s| || s[|Split(s)[0]|] == Sep
    decreases |s|
  {
    if |s| > 0 && s[0] != Sep {
      SplitHead(s[1..]);
    }
  }
}
