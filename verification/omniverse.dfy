/** Synthetic frames for a digital twin: every history sample of every intersection,
    tagged with the intersection's layout identifier and ordered by time, then by
    intersection identifier. Writing the frames to a JSON file is not modelled. */
module Omniverse {
  import opened Entities

  /** One frame: a history sample and the intersection it came from. */
  datatype Frame = Frame(time: int, intersection: string, phase: string,
                         queues: map<string, int>, pedestrians: map<string, int>)

  /** The frame of sample `s` of intersection `id`. */
  function FrameOf(id: string, s: Snapshot): Frame
  {
    Frame(s.time, id, s.phase, s.queues, s.pedestrians)
  }

  // ---------------------------------------------------------------- flattening

  /** The number of history samples over all the intersections. */
  function TotalHistory(xs: seq<Intersection>): nat
  {
    if |xs| == 0 then 0 else TotalHistory(xs[..|xs| - 1]) + |xs[|xs| - 1].history|
  }

  /** Sample `i` of intersection `k` is a frame of `xs`. */
  ghost predicate FromSample(xs: seq<Intersection>, f: Frame)
  {
    exists k, i :: 0 <= k < |xs| && 0 <= i < |xs[k].history| && f == FrameOf(xs[k].layoutId, xs[k].history[i])
  }

  /** The frames of one intersection, in history order. */
  function FramesOf(x: Intersection): (r: seq<Frame>)
    ensures |r| == |x.history|
    ensures forall i :: 0 <= i < |x.history| ==> r[i] == FrameOf(x.layoutId, x.history[i])
  {
    seq(|x.history|, i requires 0 <= i < |x.history| => FrameOf(x.layoutId, x.history[i]))
  }

  /** The frames of every intersection in turn, each in history order: the list the
      code builds before sorting. It holds one frame per sample, every frame comes
      from a sample, and every sample gives a frame. */
  function Flatten(xs: seq<Intersection>): (r: seq<Frame>)
    ensures |r| == TotalHistory(xs)
    ensures forall j :: 0 <= j < |r| ==> FromSample(xs, r[j])
    ensures forall k, i :: 0 <= k < |xs| && 0 <= i < |xs[k].history| ==> FrameOf(xs[k].layoutId, xs[k].history[i]) in r
  {
    if |xs| == 0 then []
    else
      var init, x := xs[..|xs| - 1], xs[|xs| - 1];
      var front := Flatten(init);
      assert xs == init + [x];
      FlattenStepFromSamples(xs, init, x, front, front + FramesOf(x));
      FlattenStepCoversSamples(xs, init, x, front);
      front + FramesOf(x)
  }

  /** Appending the last intersection's frames to frames that all come from the other
      intersections' samples gives frames that all come from samples. */
  lemma FlattenStepFromSamples(xs: seq<Intersection>, init: seq<Intersection>, x: Intersection,
                                front: seq<Frame>, r: seq<Frame>)
    requires xs == init + [x] && r == front + FramesOf(x)
    requires forall j :: 0 <= j < |front| ==> FromSample(init, front[j])
    ensures forall j :: 0 <= j < |r| ==> FromSample(xs, r[j])
  {
    forall j | 0 <= j < |r| ensures FromSample(xs, r[j]) {
      if j < |front| {
        var k, i :| 0 <= k < |init| && 0 <= i < |init[k].history| && front[j] == FrameOf(init[k].layoutId, init[k].history[i]);
        assert xs[k] == init[k] && r[j] == front[j];
      } else {
        assert xs[|init|] == x;
        assert r[j] == FrameOf(xs[|init|].layoutId, xs[|init|].history[j - |front|]);
      }
    }
  }

  /** Appending the last intersection's frames to frames that include every sample of
      the other intersections gives frames that include every sample. */
  lemma FlattenStepCoversSamples(xs: seq<Intersection>, init: seq<Intersection>, x: Intersection, front: seq<Frame>)
    requires xs == init + [x]
    requires forall k, i :: 0 <= k < |init| && 0 <= i < |init[k].history| ==>
               FrameOf(init[k].layoutId, init[k].history[i]) in front
    ensures forall k, i :: 0 <= k < |xs| && 0 <= i < |xs[k].history| ==>
              FrameOf(xs[k].layoutId, xs[k].history[i]) in front + FramesOf(x)
  {
    var r := front + FramesOf(x);
    forall k, i | 0 <= k < |xs| && 0 <= i < |xs[k].history|
      ensures FrameOf(xs[k].layoutId, xs[k].history[i]) in r
    {
      if k < |xs| - 1 {
        assert xs[k] == init[k];
        assert FrameOf(init[k].layoutId, init[k].history[i]) in front;
      } else {
        assert r[|front| + i] == FrameOf(x.layoutId, x.history[i]);
      }
    }
  }

  // ---------------------------------------------------------------- the sort key

  /** Python's `a <= b` on strings: code point by code point, a proper prefix first. */
  predicate StrLe(a: string, b: string)
  {
    |a| == 0 || (|b| > 0 && (a[0] < b[0] || (a[0] == b[0] && StrLe(a[1..], b[1..]))))
  }

  /** Every string sorts no later than itself. */
  lemma {:induction false} StrLeReflexive(a: string)
    ensures StrLe(a, a)
  {
    if |a| > 0 {
      StrLeReflexive(a[1..]);
    }
  }

  /** Any two strings compare one way or the other. */
  lemma {:induction false} StrLeTotal(a: string, b: string)
    ensures StrLe(a, b) || StrLe(b, a)
  {
    if |a| > 0 && |b| > 0 && a[0] == b[0] {
      StrLeTotal(a[1..], b[1..]);
    }
  }

  /** String order is transitive. */
  lemma {:induction false} StrLeTransitive(a: string, b: string, c: string)
    requires StrLe(a, b) && StrLe(b, c)
    ensures StrLe(a, c)
  {
    if |a| > 0 && a[0] == b[0] && b[0] == c[0] {
      StrLeTransitive(a[1..], b[1..], c[1..]);
    }
  }

  /** String order is antisymmetric: it tells different strings apart. */
  lemma {:induction false} StrLeAntisymmetric(a: string, b: string)
    requires StrLe(a, b) && StrLe(b, a)
    ensures a == b
  {
    if |a| > 0 {
      StrLeAntisymmetric(a[1..], b[1..]);
      assert a == [a[0]] + a[1..] && b == [b[0]] + b[1..];
    }
  }

  /** The textbook lexicographic order: `a` is a prefix of `b`, or at the first position
      where the two differ `a` has the smaller character. */
  ghost predicate Lexicographic(a: string, b: string)
  {
    || (|a| <= |b| && a == b[..|a|])
    || exists k :: 0 <= k < |a| && k < |b| && a[..k] == b[..k] && a[k] < b[k]
  }

  /** The character-by-character definition is the textbook order. */
  lemma {:induction false} StrLeIsLexicographic(a: string, b: string)
    ensures StrLe(a, b) <==> Lexicographic(a, b)
  {
    if |a| == 0 {
      assert a == b[..0];
    } else if |b| == 0 {
    } else if a[0] < b[0] {
      assert a[..0] == b[..0];
    } else if a[0] > b[0] {
      LexicographicHead(a, b);
    } else {
      StrLeIsLexicographic(a[1..], b[1..]);
      LexicographicPrefixTail(a, b);
      LexicographicDiffersTail(a, b);
    }
  }

  /** A larger first character rules out both prefix and first difference. */
  lemma LexicographicHead(a: string, b: string)
    requires |a| > 0 && |b| > 0 && a[0] > b[0]
    ensures !Lexicographic(a, b)
  {
    forall k | 0 < k < |a| && k < |b| ensures a[..k] != b[..k] {
      assert a[..k][0] == a[0] && b[..k][0] == b[0];
    }
  }

  /** Past an equal first character, being a prefix is decided by the tails. */
  lemma LexicographicPrefixTail(a: string, b: string)
    requires |a| > 0 && |b| > 0 && a[0] == b[0]
    ensures (|a| <= |b| && a == b[..|a|]) <==> (|a[1..]| <= |b[1..]| && a[1..] == b[1..][..|a[1..]|])
  {
    var a', b' := a[1..], b[1..];
    if |a'| <= |b'| && a' == b'[..|a'|] {
      assert a == [a[0]] + a' && b[..|a|] == [b[0]] + b'[..|a'|];
    }
    if |a| <= |b| && a == b[..|a|] {
      assert a' == b'[..|a'|];
    }
  }

  /** Past an equal first character, the first difference is found in the tails, one
      position earlier. */
  lemma LexicographicDiffersTail(a: string, b: string)
    requires |a| > 0 && |b| > 0 && a[0] == b[0]
    ensures (exists k :: 0 <= k < |a| && k < |b| && a[..k] == b[..k] && a[k] < b[k])
        <==> (exists k :: 0 <= k < |a[1..]| && k < |b[1..]| && a[1..][..k] == b[1..][..k] && a[1..][k] < b[1..][k])
  {
    var a', b' := a[1..], b[1..];
    if exists k :: 0 <= k < |a'| && k < |b'| && a'[..k] == b'[..k] && a'[k] < b'[k] {
      var k :| 0 <= k < |a'| && k < |b'| && a'[..k] == b'[..k] && a'[k] < b'[k];
      assert a[..k + 1] == [a[0]] + a'[..k] && b[..k + 1] == [b[0]] + b'[..k];
      assert a[k + 1] == a'[k] && b[k + 1] == b'[k];
    }
    if exists k :: 0 <= k < |a| && k < |b| && a[..k] == b[..k] && a[k] < b[k] {
      var k :| 0 <= k < |a| && k < |b| && a[..k] == b[..k] && a[k] < b[k];
      assert k > 0;
      assert a'[..k - 1] == a[..k][1..] && b'[..k - 1] == b[..k][1..];
      assert a'[k - 1] == a[k] && b'[k - 1] == b[k];
    }
  }

  /** The two frames have the same sort key `(time, intersection)`. */
  predicate SameKey(f: Frame, g: Frame)
  {
    f.time == g.time && f.intersection == g.intersection
  }

  /** `f` sorts no later than `g` by `(time, intersection)`. */
  predicate FrameLe(f: Frame, g: Frame)
  {
    f.time < g.time || (f.time == g.time && StrLe(f.intersection, g.intersection))
  }

  /** Frame order is total. */
  lemma FrameLeTotal(f: Frame, g: Frame)
    ensures FrameLe(f, g) || FrameLe(g, f)
  {
    StrLeTotal(f.intersection, g.intersection);
  }

  /** Frame order is transitive. */
  lemma FrameLeTransitive(f: Frame, g: Frame, h: Frame)
    requires FrameLe(f, g) && FrameLe(g, h)
    ensures FrameLe(f, h)
  {
    if f.time == g.time == h.time {
      StrLeTransitive(f.intersection, g.intersection, h.intersection);
    }
  }

  /** Two frames that sort no later than each other have the same key. */
  lemma FrameLeAntisymmetric(f: Frame, g: Frame)
    requires FrameLe(f, g) && FrameLe(g, f)
    ensures SameKey(f, g)
  {
    StrLeAntisymmetric(f.intersection, g.intersection);
  }

  /** Every frame sorts no later than every frame after it. */
  predicate Sorted(s: seq<Frame>)
  {
    forall i, j :: 0 <= i < j < |s| ==> FrameLe(s[i], s[j])
  }

  // ---------------------------------------------------------------- the stable sort

  /** Inserts `f` after the last frame that sorts no later than it. Only frames that
      sort strictly after `f` end up behind it. */
  function Insert(f: Frame, s: seq<Frame>): (r: seq<Frame>)
    ensures |r| == |s| + 1
    ensures multiset(r) == multiset(s) + multiset{f}
  {
    if |s| == 0 then [f]
    else
      var init, last := s[..|s| - 1], s[|s| - 1];
      assert s == init + [last];
      if FrameLe(last, f) then s + [f] else Insert(f, init) + [last]
  }

  /** Every frame of a sorted sequence whose last frame is `last` sorts no later than `last`. */
  lemma SortedBelowLast(s: seq<Frame>, g: Frame)
    requires |s| > 0 && Sorted(s) && g in multiset(s)
    ensures FrameLe(g, s[|s| - 1])
  {
    var i :| 0 <= i < |s| && s[i] == g;
    if i == |s| - 1 {
      assert StrLe(g.intersection, g.intersection) by {
        StrLeReflexive(g.intersection);
      }
    }
  }

  /** Inserting into a sorted sequence keeps it sorted. */
  lemma {:induction false} InsertSorted(f: Frame, s: seq<Frame>)
    requires Sorted(s)
    ensures Sorted(Insert(f, s))
    decreases |s|
  {
    if |s| > 0 {
      var init, last := s[..|s| - 1], s[|s| - 1];
      var r := Insert(f, s);
      if FrameLe(last, f) {
        forall i, j | 0 <= i < j < |r| ensures FrameLe(r[i], r[j]) {
          if j == |s| && i < |s| - 1 {
            FrameLeTransitive(s[i], last, f);
          }
        }
      } else {
        var front := Insert(f, init);
        assert Sorted(init);
        InsertSorted(f, init);
        FrameLeTotal(last, f);
        forall g | g in multiset(front) ensures FrameLe(g, last) {
          if g != f {
            assert g in multiset(s) by {
              assert s == init + [last];
            }
            SortedBelowLast(s, g);
          }
        }
        forall i, j | 0 <= i < j < |r| ensures FrameLe(r[i], r[j]) {
          if j == |front| {
            assert r[i] in multiset(front);
          }
        }
      }
    }
  }

  /** The frames ordered by time, then by intersection identifier, with ties kept in
      their input order: a stable insertion sort that inserts each frame in turn. */
  function SortFrames(s: seq<Frame>): (r: seq<Frame>)
    ensures |r| == |s|
    ensures multiset(r) == multiset(s)
  {
    if |s| == 0 then []
    else
      var init, last := s[..|s| - 1], s[|s| - 1];
      assert multiset(s) == multiset(init) + multiset{last} by {
        assert s == init + [last];
      }
      Insert(last, SortFrames(init))
  }

  /** The sort's output is sorted. */
  lemma {:induction false} SortFramesSorted(s: seq<Frame>)
    ensures Sorted(SortFrames(s))
    decreases |s|
  {
    if |s| > 0 {
      SortFramesSorted(s[..|s| - 1]);
      InsertSorted(s[|s| - 1], SortFrames(s[..|s| - 1]));
    }
  }

  /** The frames of `s` that carry key `(t, id)`, in order. */
  function WithKey(s: seq<Frame>, t: int, id: string): (r: seq<Frame>)
    ensures |r| <= |s|
  {
    if |s| == 0 then []
    else WithKey(s[..|s| - 1], t, id) + (if s[|s| - 1].time == t && s[|s| - 1].intersection == id then [s[|s| - 1]] else [])
  }

  /** Selecting by key from a sequence with one more frame at the end. */
  lemma WithKeySnoc(s: seq<Frame>, g: Frame, t: int, id: string)
    ensures WithKey(s + [g], t, id) == WithKey(s, t, id) + (if g.time == t && g.intersection == id then [g] else [])
  {
    assert (s + [g])[..|s|] == s;
  }

  /** Insertion keeps the frames of each key in order, with `f` behind those of its own key. */
  lemma {:induction false} InsertWithKey(f: Frame, s: seq<Frame>, t: int, id: string)
    ensures WithKey(Insert(f, s), t, id) ==
              WithKey(s, t, id) + (if f.time == t && f.intersection == id then [f] else [])
    decreases |s|
  {
    if |s| == 0 {
      WithKeySnoc([], f, t, id);
      assert [] + [f] == [f];
    } else {
      var init, last := s[..|s| - 1], s[|s| - 1];
      assert s == init + [last];
      if FrameLe(last, f) {
        WithKeySnoc(s, f, t, id);
      } else {
        var front := Insert(f, init);
        assert Insert(f, s) == front + [last];
        InsertWithKey(f, init, t, id);
        WithKeySnoc(front, last, t, id);
        WithKeySnoc(init, last, t, id);
        StrLeReflexive(f.intersection);
        var mine := if f.time == t && f.intersection == id then [f] else [];
        var theirs := if last.time == t && last.intersection == id then [last] else [];
        var before := WithKey(init, t, id);
        if mine == [] {
          assert before + mine == before && before + theirs + mine == before + theirs;
        } else {
          assert theirs == [];
          assert before + mine + theirs == before + mine && before + theirs == before;
        }
      }
    }
  }

  /** The sort is stable: the frames of every key keep the order they had. */
  lemma {:induction false} SortFramesStable(s: seq<Frame>, t: int, id: string)
    ensures WithKey(SortFrames(s), t, id) == WithKey(s, t, id)
    decreases |s|
  {
    if |s| > 0 {
      var init, last := s[..|s| - 1], s[|s| - 1];
      SortFramesStable(init, t, id);
      InsertWithKey(last, SortFrames(init), t, id);
    }
  }

  // ---------------------------------------------------------------- synthesis

  /** Every history sample of every intersection as a frame, sorted by
      `(time, intersection)` with ties in intersection-then-history order. */
  function SynthesizeFrames(xs: seq<Intersection>): (r: seq<Frame>)
    ensures |r| == TotalHistory(xs)
    ensures Sorted(r)
    ensures multiset(r) == multiset(Flatten(xs))
    ensures forall f :: f in r ==> FromSample(xs, f)
    ensures forall k, i :: 0 <= k < |xs| && 0 <= i < |xs[k].history| ==> FrameOf(xs[k].layoutId, xs[k].history[i]) in r
  {
    var flat := Flatten(xs);
    var r := SortFrames(flat);
    SortFramesSorted(flat);
    assert forall f :: f in r <==> f in flat by {
      forall f ensures f in r <==> f in flat {
        assert f in r <==> f in multiset(r);
        assert f in flat <==> f in multiset(flat);
      }
    }
    r
  }

  /** Ties keep the order of the flattened list: for every key, the frames with that
      key appear in the output exactly as they appear intersection by intersection. */
  lemma SynthesizeFramesStable(xs: seq<Intersection>, t: int, id: string)
    ensures WithKey(SynthesizeFrames(xs), t, id) == WithKey(Flatten(xs), t, id)
  {
    SortFramesStable(Flatten(xs), t, id);
  }

  /** No samples, no frames. */
  lemma NoSamplesNoFrames(xs: seq<Intersection>)
    requires forall k :: 0 <= k < |xs| ==> xs[k].history == []
    ensures SynthesizeFrames(xs) == []
  {
    UniformHistoryFrames(xs, 0);
  }

  /** When every intersection has `n` samples there are `n` frames per intersection. */
  lemma {:induction false} UniformHistoryFrames(xs: seq<Intersection>, n: nat)
    requires forall k :: 0 <= k < |xs| ==> |xs[k].history| == n
    ensures |SynthesizeFrames(xs)| == n * |xs|
    ensures TotalHistory(xs) == n * |xs|
    decreases |xs|
  {
    if |xs| > 0 {
      UniformHistoryFrames(xs[..|xs| - 1], n);
      assert n * |xs| == n * (|xs| - 1) + n;
    }
  }
}
