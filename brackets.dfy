/** The bracket resolver of src/utils.rs: one left-to-right pass with a
    stack of pending `[` positions that pairs every `]` with the most recent
    pending `[` and records the pair in both directions of a jump table.

    The table is specified declaratively, by nesting depth, so that it can be
    compared with the resolver kept inside the interpreter (a map instead of
    a vector) and reused by the native code emitter. */
module Brackets {
  import opened Common

  predicate IsBracket(b: u8) { b == OPEN || b == CLOSE }

  /** Contribution of one byte to the nesting depth. */
  function Delta(b: u8): (d: int) { if b == OPEN then 1 else if b == CLOSE then -1 else 0 }

  /** Number of `[` minus number of `]` in `s`. */
  function Depth(s: seq<u8>): (d: int)
  {
    if s == [] then 0 else Depth(s[..|s| - 1]) + Delta(s[|s| - 1])
  }

  /** No prefix of `s` closes more brackets than it opens. */
  ghost predicate NeverNegative(s: seq<u8>)
  {
    forall k :: 0 <= k <= |s| ==> Depth(s[..k]) >= 0
  }

  /** `s` is a properly nested bracket structure (other bytes ignored). */
  ghost predicate Balanced(s: seq<u8>)
  {
    Depth(s) == 0 && NeverNegative(s)
  }

  /** The `[` at `open` and the `]` at `close` match: what lies strictly
      between them is properly nested. */
  ghost predicate Pairs(code: seq<u8>, open: int, close: int)
  {
    0 <= open < close < |code| && code[open] == OPEN && code[close] == CLOSE
    && Balanced(code[open + 1..close])
  }

  /** The `[` at `open` is never closed: no later `]` brings the depth below
      the level it opened. */
  ghost predicate Unclosed(code: seq<u8>, open: int)
  {
    0 <= open < |code| && code[open] == OPEN && NeverNegative(code[open + 1..])
  }

  /** Either end of a matched pair, seen from `k`. */
  ghost predicate PairedWith(code: seq<u8>, k: int, other: int)
  {
    Pairs(code, k, other) || Pairs(code, other, k)
  }

  /** What the table holds at position `k`: the partner of a matched
      bracket, and 0 for an unclosed `[` or a byte that is not a bracket. */
  ghost predicate TableEntry(code: seq<u8>, m: seq<nat>, k: int)
    requires |m| == |code| && 0 <= k < |code|
  {
    if code[k] == OPEN then
      (Unclosed(code, k) && m[k] == 0) || (m[k] < |m| && Pairs(code, k, m[k]) && m[m[k]] == k)
    else if code[k] == CLOSE then
      m[k] < |m| && Pairs(code, m[k], k) && m[m[k]] == k
    else
      m[k] == 0
  }

  /** `m` is the jump table of `code`. */
  ghost predicate ValidTable(code: seq<u8>, m: seq<nat>)
  {
    |m| == |code| && forall k :: 0 <= k < |code| ==> TableEntry(code, m, k)
  }

  // ---------------------------------------------------------------------
  // Facts about depth

  lemma {:induction false} DepthAppend(a: seq<u8>, b: seq<u8>)
    ensures Depth(a + b) == Depth(a) + Depth(b)
    decreases |b|
  {
    if b == [] {
      assert a + b == a;
    } else {
      var b' := b[..|b| - 1];
      assert (a + b)[..|a + b| - 1] == a + b';
      DepthAppend(a, b');
    }
  }

  lemma DepthSplit(s: seq<u8>, x: int, y: int, z: int)
    requires 0 <= x <= y <= z <= |s|
    ensures Depth(s[x..z]) == Depth(s[x..y]) + Depth(s[y..z])
  {
    assert s[x..z] == s[x..y] + s[y..z];
    DepthAppend(s[x..y], s[y..z]);
  }

  lemma DepthSnoc(s: seq<u8>, x: int, y: int)
    requires 0 <= x <= y < |s|
    ensures s[x..y + 1] == s[x..y] + [s[y]]
    ensures Depth(s[x..y + 1]) == Depth(s[x..y]) + Delta(s[y])
  {
    assert s[x..y + 1][..y - x] == s[x..y];
  }

  lemma NeverNegativeSnoc(s: seq<u8>, c: u8)
    requires NeverNegative(s) && Depth(s + [c]) >= 0
    ensures NeverNegative(s + [c])
  {
    forall k | 0 <= k <= |s| + 1
      ensures Depth((s + [c])[..k]) >= 0
    {
      if k <= |s| {
        assert (s + [c])[..k] == s[..k];
      } else {
        assert (s + [c])[..k] == s + [c];
      }
    }
  }

  lemma NeverNegativePrefix(s: seq<u8>, k: int)
    requires NeverNegative(s) && 0 <= k <= |s|
    ensures Depth(s[..k]) >= 0
  {
  }

  lemma NeverNegativeAppend(a: seq<u8>, b: seq<u8>)
    requires NeverNegative(a) && NeverNegative(b)
    ensures NeverNegative(a + b)
  {
    assert a[..|a|] == a;
    forall k | 0 <= k <= |a + b|
      ensures Depth((a + b)[..k]) >= 0
    {
      if k <= |a| {
        assert (a + b)[..k] == a[..k];
      } else {
        assert (a + b)[..k] == a + b[..k - |a|];
        DepthAppend(a, b[..k - |a|]);
      }
    }
  }

  lemma BalancedAppend(a: seq<u8>, b: seq<u8>)
    requires Balanced(a) && Balanced(b)
    ensures Balanced(a + b)
  {
    DepthAppend(a, b);
    NeverNegativeAppend(a, b);
  }

  lemma BalancedWrap(a: seq<u8>)
    requires Balanced(a)
    ensures Balanced([OPEN] + a + [CLOSE])
  {
    assert [OPEN][..0] == [] && [OPEN][..1] == [OPEN];
    assert Depth([OPEN]) == 1 by { assert [OPEN][..0] == []; }
    assert NeverNegative([OPEN]);
    NeverNegativeAppend([OPEN], a);
    DepthAppend([OPEN], a);
    DepthAppend([OPEN] + a, [CLOSE]);
    assert Depth([CLOSE]) == -1 by { assert [CLOSE][..0] == []; }
    NeverNegativeSnoc([OPEN] + a, CLOSE);
  }

  // ---------------------------------------------------------------------
  // The matching is unique and properly nested

  /** Inside the balanced run after the `[` at `i`, an earlier `]` at `j`
      sits at depth at least 1. */
  lemma InnerCloseDepth(code: seq<u8>, i: int, j: int, j': int)
    requires Pairs(code, i, j') && i < j < j' && code[j] == CLOSE
    ensures Depth(code[i + 1..j]) >= 1
  {
    DepthSnoc(code, i + 1, j);
    assert code[i + 1..j'][..j - i] == code[i + 1..j + 1];
    NeverNegativePrefix(code[i + 1..j'], j - i);
  }

  /** Inside the balanced run after the `[` at `i1`, the run after a later
      `[` at `i2` up to the same end has negative depth. */
  lemma InnerOpenDepth(code: seq<u8>, i1: int, i2: int, j: int)
    requires Pairs(code, i1, j) && i1 < i2 < j && code[i2] == OPEN
    ensures Depth(code[i2 + 1..j]) <= -1
  {
    DepthSplit(code, i1 + 1, i2, j);
    DepthSplit(code, i2, i2 + 1, j);
    assert code[i2..i2 + 1] == [OPEN];
    assert Depth([OPEN]) == 1 by { assert [OPEN][..0] == []; }
    assert code[i1 + 1..j][..i2 - i1 - 1] == code[i1 + 1..i2];
    NeverNegativePrefix(code[i1 + 1..j], i2 - i1 - 1);
  }

  /** After an unclosed `[`, every `]` sits at depth at least 1. */
  lemma UnclosedDepth(code: seq<u8>, i: int, j: int)
    requires Unclosed(code, i) && i < j < |code| && code[j] == CLOSE
    ensures Depth(code[i + 1..j]) >= 1
  {
    DepthSnoc(code, i + 1, j);
    assert code[i + 1..][..j - i] == code[i + 1..j + 1];
    NeverNegativePrefix(code[i + 1..], j - i);
  }

  /** A `[` has at most one matching `]`. */
  lemma MatchUnique(code: seq<u8>, i: int, j1: int, j2: int)
    requires Pairs(code, i, j1) && Pairs(code, i, j2)
    ensures j1 == j2
  {
    if j1 < j2 {
      InnerCloseDepth(code, i, j1, j2);
      assert false;
    } else if j2 < j1 {
      InnerCloseDepth(code, i, j2, j1);
      assert false;
    }
  }

  /** A `]` has at most one matching `[`. */
  lemma OpenUnique(code: seq<u8>, i1: int, i2: int, j: int)
    requires Pairs(code, i1, j) && Pairs(code, i2, j)
    ensures i1 == i2
  {
    if i1 < i2 {
      InnerOpenDepth(code, i1, i2, j);
      assert false;
    } else if i2 < i1 {
      InnerOpenDepth(code, i2, i1, j);
      assert false;
    }
  }

  /** Matched pairs never cross: a pair opened inside another also closes
      inside it. */
  lemma PairsNest(code: seq<u8>, i1: int, j1: int, i2: int, j2: int)
    requires Pairs(code, i1, j1) && Pairs(code, i2, j2) && i1 < i2 < j1
    ensures j2 < j1
  {
    if j2 == j1 {
      OpenUnique(code, i1, i2, j1);
      assert false;
    } else if j1 < j2 {
      InnerCloseDepth(code, i2, j1, j2);
      InnerOpenDepth(code, i1, i2, j1);
      assert false;
    }
  }

  /** An unclosed `[` has no matching `]`. */
  lemma UnclosedHasNoPair(code: seq<u8>, i: int, j: int)
    requires Unclosed(code, i)
    ensures !Pairs(code, i, j)
  {
    if Pairs(code, i, j) {
      UnclosedDepth(code, i, j);
      assert false;
    }
  }

  /** The jump table of a program is determined by the program: two tables
      that both satisfy ValidTable are equal. Running the resolver twice on
      the same bytes therefore yields the same table. */
  lemma ValidTableUnique(code: seq<u8>, m1: seq<nat>, m2: seq<nat>)
    requires ValidTable(code, m1) && ValidTable(code, m2)
    ensures m1 == m2
  {
    forall k | 0 <= k < |code|
      ensures m1[k] == m2[k]
    {
      assert TableEntry(code, m1, k) && TableEntry(code, m2, k);
      if code[k] == OPEN {
        if Unclosed(code, k) {
          UnclosedHasNoPair(code, k, m1[k]);
          UnclosedHasNoPair(code, k, m2[k]);
        } else {
          MatchUnique(code, k, m1[k], m2[k]);
        }
      } else if code[k] == CLOSE {
        OpenUnique(code, m1[k], m2[k], k);
      }
    }
  }

  /** Every entry of a jump table is a position of the program, so every
      jump target `m[k] + 1` is at most the program length. */
  lemma TableInRange(code: seq<u8>, m: seq<nat>, k: int)
    requires ValidTable(code, m) && 0 <= k < |code|
    ensures m[k] < |code|
  {
    assert TableEntry(code, m, k);
  }

  // ---------------------------------------------------------------------
  // The scan's loop invariant

  /** Where the stretch of code belonging to stack entry `s` ends: at the
      next pending `[`, or at the scan position for the top entry. */
  function SegmentEnd(stack: seq<nat>, s: int, idx: nat): (end: nat)
    requires 0 <= s < |stack|
  {
    if s + 1 < |stack| then stack[s + 1] else idx
  }

  ghost predicate ScannedEntry(code: seq<u8>, stack: seq<nat>, m: seq<nat>, idx: nat, k: int)
    requires |m| == |code| && 0 <= k < |code|
  {
    if code[k] == OPEN then
      (k in stack && m[k] == 0)
      || (k !in stack && k < m[k] < idx && Pairs(code, k, m[k]) && m[m[k]] == k)
    else if code[k] == CLOSE then
      m[k] < k && Pairs(code, m[k], k) && m[m[k]] == k
    else
      m[k] == 0
  }

  ghost predicate PendingOpen(code: seq<u8>, stack: seq<nat>, m: seq<nat>, idx: nat, s: int)
    requires |m| == |code| && 0 <= s < |stack|
  {
    && stack[s] < idx <= |code|
    && code[stack[s]] == OPEN && m[stack[s]] == 0
    && NeverNegative(code[stack[s] + 1..idx])
    && stack[s] < SegmentEnd(stack, s, idx) <= idx
    && Balanced(code[stack[s] + 1..SegmentEnd(stack, s, idx)])
  }

  /** State of the scan before position `idx`: `stack` holds the pending `[`
      positions in increasing order, `m` the pairs closed so far. */
  ghost predicate ScanInvariant(code: seq<u8>, idx: nat, stack: seq<nat>, m: seq<nat>)
  {
    && idx <= |code| && |m| == |code|
    && Depth(code[..idx]) == |stack| && NeverNegative(code[..idx])
    && (forall s, t :: 0 <= s < t < |stack| ==> stack[s] < stack[t])
    && (forall s :: 0 <= s < |stack| ==> PendingOpen(code, stack, m, idx, s))
    && (forall k :: idx <= k < |code| ==> m[k] == 0)
    && (forall k :: 0 <= k < idx ==> ScannedEntry(code, stack, m, idx, k))
  }

  lemma ScanStart(code: seq<u8>)
    ensures ScanInvariant(code, 0, [], seq(|code|, _ => 0))
  {
    assert code[..0] == [];
  }

  /** Extending a run that never goes negative by one byte whose depth
      stays non-negative. */
  lemma NeverNegativeStep(code: seq<u8>, a: int, idx: int)
    requires 0 <= a <= idx < |code| && NeverNegative(code[a..idx])
    requires Depth(code[a..idx]) + Delta(code[idx]) >= 0
    ensures NeverNegative(code[a..idx + 1])
  {
    DepthSnoc(code, a, idx);
    NeverNegativeSnoc(code[a..idx], code[idx]);
  }

  /** The whole-prefix facts of the invariant after one more byte. */
  lemma PrefixStep(code: seq<u8>, idx: nat, depth: int)
    requires idx < |code| && NeverNegative(code[..idx]) && Depth(code[..idx]) == depth
    requires depth + Delta(code[idx]) >= 0
    ensures NeverNegative(code[..idx + 1]) && Depth(code[..idx + 1]) == depth + Delta(code[idx])
  {
    assert code[..idx] == code[0..idx] && code[..idx + 1] == code[0..idx + 1];
    NeverNegativeStep(code, 0, idx);
    DepthSnoc(code, 0, idx);
  }

  /** A pending `[` stays pending past a byte that is not `]`. */
  lemma PendingStep(code: seq<u8>, stack: seq<nat>, stack': seq<nat>, m: seq<nat>, idx: nat, next: nat, s: int)
    requires |m| == |code| && idx < |code| && next == idx + 1 && code[idx] != CLOSE
    requires 0 <= s < |stack| <= |stack'| && stack'[..|stack|] == stack
    requires PendingOpen(code, stack, m, idx, s)
    requires SegmentEnd(stack', s, next) == SegmentEnd(stack, s, idx)
      || (SegmentEnd(stack', s, next) == next && SegmentEnd(stack, s, idx) == idx && code[idx] != OPEN)
    ensures PendingOpen(code, stack', m, next, s)
  {
    var p := stack[s];
    NeverNegativePrefix(code[p + 1..idx], idx - (p + 1));
    assert code[p + 1..idx][..idx - (p + 1)] == code[p + 1..idx];
    NeverNegativeStep(code, p + 1, idx);
    if SegmentEnd(stack', s, next) == next && SegmentEnd(stack, s, idx) == idx && code[idx] != OPEN {
      NeverNegativeStep(code, p + 1, idx);
      DepthSnoc(code, p + 1, idx);
    }
  }

  /** A `[` at `idx` is pushed. */
  lemma ScanOpen(code: seq<u8>, idx: nat, next: nat, stack: seq<nat>, m: seq<nat>)
    requires ScanInvariant(code, idx, stack, m) && idx < |code| && code[idx] == OPEN
    requires next == idx + 1
    ensures ScanInvariant(code, next, stack + [idx], m)
  {
    var stack' := stack + [idx];
    PrefixStep(code, idx, |stack|);
    assert forall s, t :: 0 <= s < t < |stack'| ==> stack'[s] < stack'[t] by {
      forall s | 0 <= s < |stack| ensures stack[s] < idx { assert PendingOpen(code, stack, m, idx, s); }
    }
    forall s | 0 <= s < |stack'|
      ensures PendingOpen(code, stack', m, next, s)
    {
      if s == |stack| {
        assert code[next..next] == [];
      } else {
        assert stack'[..|stack|] == stack;
        PendingStep(code, stack, stack', m, idx, next, s);
      }
    }
    forall k | 0 <= k < next
      ensures ScannedEntry(code, stack', m, next, k)
    {
      if k < idx {
        assert ScannedEntry(code, stack, m, idx, k);
      }
    }
  }

  /** A byte that is not a bracket at `idx` leaves stack and table alone. */
  lemma ScanOther(code: seq<u8>, idx: nat, next: nat, stack: seq<nat>, m: seq<nat>)
    requires ScanInvariant(code, idx, stack, m) && idx < |code| && !IsBracket(code[idx])
    requires next == idx + 1
    ensures ScanInvariant(code, next, stack, m)
  {
    PrefixStep(code, idx, |stack|);
    forall s | 0 <= s < |stack|
      ensures PendingOpen(code, stack, m, next, s)
    {
      assert stack[..|stack|] == stack;
      PendingStep(code, stack, stack, m, idx, next, s);
    }
    forall k | 0 <= k < next
      ensures ScannedEntry(code, stack, m, next, k)
    {
      if k < idx {
        assert ScannedEntry(code, stack, m, idx, k);
      }
    }
  }

  /** A `]` at `idx` with no pending `[`: some prefix of the program closes
      more brackets than it opens. */
  lemma ScanExcessClose(code: seq<u8>, idx: nat, m: seq<nat>)
    requires ScanInvariant(code, idx, [], m) && idx < |code| && code[idx] == CLOSE
    ensures !NeverNegative(code)
  {
    assert code[..idx] == code[0..idx] && code[..idx + 1] == code[0..idx + 1];
    DepthSnoc(code, 0, idx);
    assert Depth(code[..idx + 1]) < 0;
  }

  /** A run that never goes negative and contains a `[` followed by a
      balanced stretch up to its end has depth at least 1. */
  lemma DepthAboveOpen(code: seq<u8>, q: int, p: int, idx: int)
    requires 0 <= q < p < idx <= |code| && code[p] == OPEN
    requires NeverNegative(code[q + 1..idx]) && Depth(code[p + 1..idx]) == 0
    ensures Depth(code[q + 1..idx]) >= 1
  {
    DepthSplit(code, q + 1, p, idx);
    DepthSplit(code, p, p + 1, idx);
    assert code[p..p + 1] == [OPEN];
    assert Depth([OPEN]) == 1 by { assert [OPEN][..0] == []; }
    assert code[q + 1..idx][..p - (q + 1)] == code[q + 1..p];
    NeverNegativePrefix(code[q + 1..idx], p - (q + 1));
  }

  /** Closing the pair (p, idx) joins it to the balanced stretch before p. */
  lemma SegmentAfterClose(code: seq<u8>, q: int, p: int, idx: int)
    requires 0 <= q < p < idx < |code| && code[p] == OPEN && code[idx] == CLOSE
    requires Balanced(code[q + 1..p]) && Balanced(code[p + 1..idx])
    ensures Balanced(code[q + 1..idx + 1])
  {
    BalancedWrap(code[p + 1..idx]);
    BalancedAppend(code[q + 1..p], [OPEN] + code[p + 1..idx] + [CLOSE]);
    assert code[q + 1..idx + 1] == code[q + 1..p] + ([OPEN] + code[p + 1..idx] + [CLOSE]);
  }

  /** A pending `[` below the top stays pending when the top is closed by
      the `]` at `idx`. */
  lemma PendingAfterClose(code: seq<u8>, stack: seq<nat>, m: seq<nat>, idx: nat, next: nat, s: int)
    requires |m| == |code| && idx < |code| && code[idx] == CLOSE && next == idx + 1
    requires 0 <= s < |stack| - 1 && stack[s] < stack[|stack| - 1]
    requires PendingOpen(code, stack, m, idx, s) && PendingOpen(code, stack, m, idx, |stack| - 1)
    ensures var p := stack[|stack| - 1];
      p < idx && PendingOpen(code, stack[..|stack| - 1], m[p := idx][idx := p], next, s)
  {
    var top := |stack| - 1;
    var p := stack[top];
    var q := stack[s];
    var stack' := stack[..top];
    assert SegmentEnd(stack, top, idx) == idx;
    DepthAboveOpen(code, q, p, idx);
    NeverNegativeStep(code, q + 1, idx);
    if s + 1 == |stack'| {
      // the stretch of q now reaches past the closed pair
      assert SegmentEnd(stack, s, idx) == p;
      SegmentAfterClose(code, q, p, idx);
    } else {
      assert SegmentEnd(stack', s, next) == SegmentEnd(stack, s, idx);
    }
  }

  /** The table entry at `k` after the `]` at `idx` closes the `[` at `p`. */
  lemma EntryAfterClose(code: seq<u8>, stack: seq<nat>, m: seq<nat>, idx: nat, next: nat, k: int)
    requires ScanInvariant(code, idx, stack, m) && idx < |code| && code[idx] == CLOSE
    requires next == idx + 1 && |stack| > 0 && 0 <= k < next
    ensures var p := stack[|stack| - 1];
      p < idx && ScannedEntry(code, stack[..|stack| - 1], m[p := idx][idx := p], next, k)
  {
    var top := |stack| - 1;
    var p := stack[top];
    var stack' := stack[..top];
    assert PendingOpen(code, stack, m, idx, top);
    var m' := m[p := idx][idx := p];
    assert SegmentEnd(stack, top, idx) == idx;
    if k == idx {
      assert Pairs(code, p, idx);
    } else if k == p {
      assert p !in stack' by {
        forall s | 0 <= s < |stack'| ensures stack'[s] != p { assert stack[s] < stack[top]; }
      }
      assert Pairs(code, p, idx);
    } else {
      assert ScannedEntry(code, stack, m, idx, k);
      assert k in stack' <==> k in stack by {
        assert stack == stack' + [p];
      }
      if code[k] == CLOSE {
        assert m[k] != p;
      }
    }
  }

  /** A `]` at `idx` closes the most recent pending `[`. */
  lemma ScanClose(code: seq<u8>, idx: nat, next: nat, stack: seq<nat>, m: seq<nat>)
    requires ScanInvariant(code, idx, stack, m) && idx < |code| && code[idx] == CLOSE
    requires next == idx + 1 && |stack| > 0
    ensures var p := stack[|stack| - 1];
      p < idx && ScanInvariant(code, next, stack[..|stack| - 1], m[p := idx][idx := p])
  {
    var top := |stack| - 1;
    var p := stack[top];
    var stack' := stack[..top];
    assert PendingOpen(code, stack, m, idx, top);
    var m' := m[p := idx][idx := p];
    PrefixStep(code, idx, |stack|);
    forall s | 0 <= s < |stack'|
      ensures PendingOpen(code, stack', m', next, s)
    {
      assert PendingOpen(code, stack, m, idx, s);
      PendingAfterClose(code, stack, m, idx, next, s);
    }
    forall k | 0 <= k < next
      ensures ScannedEntry(code, stack', m', next, k)
    {
      EntryAfterClose(code, stack, m, idx, next, k);
    }
  }

  /** At the end of the scan the table is complete; every `[` still pending
      is unclosed. */
  lemma ScanFinish(code: seq<u8>, stack: seq<nat>, m: seq<nat>)
    requires ScanInvariant(code, |code|, stack, m)
    ensures NeverNegative(code) && ValidTable(code, m)
    ensures forall s :: 0 <= s < |stack| ==> Unclosed(code, stack[s])
  {
    assert code[..|code|] == code;
    forall s | 0 <= s < |stack|
      ensures Unclosed(code, stack[s])
    {
      assert PendingOpen(code, stack, m, |code|, s);
      assert code[stack[s] + 1..|code|] == code[stack[s] + 1..];
    }
    forall k | 0 <= k < |code|
      ensures TableEntry(code, m, k)
    {
      assert ScannedEntry(code, stack, m, |code|, k);
      if code[k] == OPEN && k in stack {
        var s :| 0 <= s < |stack| && stack[s] == k;
        assert Unclosed(code, stack[s]);
      }
    }
  }

  // ---------------------------------------------------------------------
  // The resolver

  /** `gather_matching_brackets`: the jump table of `bytecode`, or the error
      for a `]` that no pending `[` matches. A `[` left pending at the end is
      not an error; its entry stays 0. */
  method GatherMatchingBrackets(bytecode: seq<u8>) returns (r: Result<seq<nat>>)
    ensures r.Ok? <==> NeverNegative(bytecode)
    ensures r.Err? ==> r.error == InvalidData(MISMATCHED_BRACKET)
    ensures r.Ok? ==> ValidTable(bytecode, r.value)
  {
    var bracketsQueue: seq<nat> := [];
    var matchingBrackets: seq<nat> := seq(|bytecode|, _ => 0);
    ScanStart(bytecode);
    for idx := 0 to |bytecode|
      invariant ScanInvariant(bytecode, idx, bracketsQueue, matchingBrackets)
    {
      var opcode := bytecode[idx];
      if opcode == OPEN {
        ScanOpen(bytecode, idx, idx + 1, bracketsQueue, matchingBrackets);
        bracketsQueue := bracketsQueue + [idx];
      } else if opcode == CLOSE {
        if bracketsQueue == [] {
          ScanExcessClose(bytecode, idx, matchingBrackets);
          return Err(InvalidData(MISMATCHED_BRACKET));
        }
        ScanClose(bytecode, idx, idx + 1, bracketsQueue, matchingBrackets);
        var lastBracket := bracketsQueue[|bracketsQueue| - 1];
        bracketsQueue := bracketsQueue[..|bracketsQueue| - 1];
        // the opening and the closing bracket each record the other
        matchingBrackets := matchingBrackets[lastBracket := idx];
        matchingBrackets := matchingBrackets[idx := lastBracket];
      } else {
        ScanOther(bytecode, idx, idx + 1, bracketsQueue, matchingBrackets);
      }
    }
    ScanFinish(bytecode, bracketsQueue, matchingBrackets);
    return Ok(matchingBrackets);
  }
}
