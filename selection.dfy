/**
 Row selection by a boolean mask, as `frame[mask]` does it: the rows whose
 mask entry is true, in their original order.
 */
module Selection {

  /** The elements of `s` for which `keep` holds, in their order in `s`. */
  function Select<T>(s: seq<T>, keep: T -> bool): (r: seq<T>)
    ensures |r| <= |s|
    ensures forall k :: 0 <= k < |r| ==> keep(r[k])
    decreases |s|
  {
    if |s| == 0 then []
    else
      var init := Select(s[..|s| - 1], keep);
      if keep(s[|s| - 1]) then init + [s[|s| - 1]] else init
  }

  /**
   The positions of the true entries of the mask `keep` over `s`, ascending:
   a position is listed exactly when the mask is true there.
   */
  function TruePositions<T>(s: seq<T>, keep: T -> bool): (idx: seq<nat>)
    ensures forall k :: 0 <= k < |idx| ==> idx[k] < |s| && keep(s[idx[k]])
    ensures forall j, k :: 0 <= j < k < |idx| ==> idx[j] < idx[k]
    ensures forall i :: 0 <= i < |s| && keep(s[i]) ==> i in idx
    decreases |s|
  {
    if |s| == 0 then []
    else
      var init := TruePositions(s[..|s| - 1], keep);
      if keep(s[|s| - 1]) then init + [|s| - 1] else init
  }

  /** The elements of `s` at the positions `idx`, in the order of `idx`. */
  function Gather<T>(s: seq<T>, idx: seq<nat>): seq<T>
    requires forall k :: 0 <= k < |idx| ==> idx[k] < |s|
  {
    seq(|idx|, k requires 0 <= k < |idx| => s[idx[k]])
  }

  /** Selection is exactly the rows at the mask's true positions, in order. */
  lemma {:induction false} SelectIsGather<T>(s: seq<T>, keep: T -> bool)
    ensures Select(s, keep) == Gather(s, TruePositions(s, keep))
    decreases |s|
  {
    if |s| > 0 {
      var init := s[..|s| - 1];
      SelectIsGather(init, keep);
      var idx := TruePositions(init, keep);
      assert Gather(init, idx) == Gather(s, idx);
    }
  }

  /** Selection distributes over concatenation. */
  lemma {:induction false} SelectAppend<T>(a: seq<T>, b: seq<T>, keep: T -> bool)
    ensures Select(a + b, keep) == Select(a, keep) + Select(b, keep)
    decreases |b|
  {
    if |b| > 0 {
      var b' := b[..|b| - 1];
      assert (a + b)[..|a + b| - 1] == a + b';
      SelectAppend(a, b', keep);
    } else {
      assert a + b == a;
    }
  }

  /** A mask that is true everywhere keeps every row. */
  lemma {:induction false} SelectAll<T>(s: seq<T>, keep: T -> bool)
    requires forall i :: 0 <= i < |s| ==> keep(s[i])
    ensures Select(s, keep) == s
    decreases |s|
  {
    if |s| > 0 {
      SelectAll(s[..|s| - 1], keep);
      assert s[..|s| - 1] + [s[|s| - 1]] == s;
    }
  }

  /** A mask that is false everywhere keeps no row. */
  lemma {:induction false} SelectNone<T>(s: seq<T>, keep: T -> bool)
    requires forall i :: 0 <= i < |s| ==> !keep(s[i])
    ensures Select(s, keep) == []
    decreases |s|
  {
    if |s| > 0 {
      SelectNone(s[..|s| - 1], keep);
    }
  }

  /** A mask and its negation together select every row once. */
  lemma {:induction false} SelectComplementLengths<T>(s: seq<T>, p: T -> bool, q: T -> bool)
    requires forall x :: q(x) == !p(x)
    ensures |Select(s, p)| + |Select(s, q)| == |s|
    decreases |s|
  {
    if |s| > 0 {
      SelectComplementLengths(s[..|s| - 1], p, q);
      assert q(s[|s| - 1]) == !p(s[|s| - 1]);
    }
  }

  /** A mask and its negation split the rows as a multiset. */
  lemma {:induction false} SelectComplementMultiset<T>(s: seq<T>, p: T -> bool, q: T -> bool)
    requires forall x :: q(x) == !p(x)
    ensures multiset(Select(s, p)) + multiset(Select(s, q)) == multiset(s)
    decreases |s|
  {
    if |s| > 0 {
      var init := s[..|s| - 1];
      SelectComplementMultiset(init, p, q);
      assert q(s[|s| - 1]) == !p(s[|s| - 1]);
      assert s == init + [s[|s| - 1]];
    }
  }

  /** A value is selected exactly when it occurs in `s` and the mask holds of it. */
  lemma {:induction false} SelectMembership<T>(s: seq<T>, keep: T -> bool, x: T)
    ensures x in Select(s, keep) <==> x in s && keep(x)
    decreases |s|
  {
    if |s| > 0 {
      var init := s[..|s| - 1];
      SelectMembership(init, keep, x);
      assert s == init + [s[|s| - 1]];
    }
  }

  /** Each position is a true position of exactly one of a mask and its negation. */
  lemma PositionsPartition<T>(s: seq<T>, p: T -> bool, q: T -> bool, i: nat)
    requires forall x :: q(x) == !p(x)
    requires i < |s|
    ensures i in TruePositions(s, p) <==> i !in TruePositions(s, q)
  {
  }

  /**
   When the mask is true on a prefix and false after it, the selected rows
   followed by the rejected rows are the original sequence.
   */
  lemma {:induction false} SelectPrefixSplit<T>(s: seq<T>, p: T -> bool, q: T -> bool)
    requires forall x :: q(x) == !p(x)
    requires forall i, j :: 0 <= i < j < |s| && p(s[j]) ==> p(s[i])
    ensures Select(s, p) + Select(s, q) == s
    decreases |s|
  {
    if |s| > 0 {
      var init := s[..|s| - 1];
      var last := s[|s| - 1];
      assert q(last) == !p(last);
      if p(last) {
        SelectAll(s, p);
        forall i | 0 <= i < |s| ensures !q(s[i]) {
          assert q(s[i]) == !p(s[i]);
        }
        SelectNone(s, q);
      } else {
        SelectPrefixSplit(init, p, q);
        assert s == init + [last];
      }
    }
  }
}
