/** Random choice of the quorum: indices into the configured keys, drawn one at a
    time, reduced modulo the key count and kept only when new. The random source is
    the finite sequence `draws` of values the generator returned. */
module Selection {
  import opened Vault

  /** The index each draw names. */
  function Residues(draws: seq<nat>, keyCount: nat): seq<nat>
    requires keyCount > 0
  {
    seq(|draws|, j requires 0 <= j < |draws| => draws[j] % keyCount)
  }

  /** The set of indices the draws name. */
  function Named(draws: seq<nat>, keyCount: nat): set<nat>
    requires keyCount > 0
  {
    Elements(Residues(draws, keyCount))
  }

  /** One pass of the loop body: reduce the draw and append it unless already chosen. */
  function Step(sel: seq<nat>, keyCount: nat, draw: nat): (r: seq<nat>)
    requires keyCount > 0
    ensures draw % keyCount in r
    ensures sel <= r && |r| <= |sel| + 1
    ensures forall x :: x in r ==> x in sel || x == draw % keyCount
    ensures Distinct(sel) ==> Distinct(r)
    ensures InRange(sel, keyCount) ==> InRange(r, keyCount)
  {
    var n := draw % keyCount;
    if n in sel then sel else sel + [n]
  }

  /** The selection loop as a fold over the draws, from the partial selection `sel`:
      it stops as soon as `needed` indices are chosen or the draws run out.
      The precondition `needed <= keyCount` is what the fail-fast check establishes;
      it is all the loop needs to never reduce modulo zero. */
  function Pick(sel: seq<nat>, keyCount: nat, needed: int, draws: seq<nat>): (r: seq<nat>)
    requires needed <= keyCount
    ensures sel <= r
    ensures |r| <= |sel| || |r| <= needed
    decreases |draws|
  {
    if |sel| >= needed || |draws| == 0 then sel
    else Pick(Step(sel, keyCount, draws[0]), keyCount, needed, draws[1..])
  }

  /** The fold keeps the selection duplicate-free and inside the key list. */
  lemma {:induction false} PickValid(sel: seq<nat>, keyCount: nat, needed: int, draws: seq<nat>)
    requires needed <= keyCount
    requires Distinct(sel) && InRange(sel, keyCount)
    ensures Distinct(Pick(sel, keyCount, needed, draws)) && InRange(Pick(sel, keyCount, needed, draws), keyCount)
    decreases |draws|
  {
    if |sel| < needed && |draws| > 0 {
      PickValid(Step(sel, keyCount, draws[0]), keyCount, needed, draws[1..]);
    }
  }

  /** Every index the fold adds is named by a draw, and a fold that stops short of
      `needed` has taken every index the draws name. */
  lemma {:induction false} PickCoverage(sel: seq<nat>, keyCount: nat, needed: int, draws: seq<nat>)
    requires 0 < keyCount && needed <= keyCount
    ensures forall x :: x in Pick(sel, keyCount, needed, draws) ==> x in sel || x in Residues(draws, keyCount)
    ensures |Pick(sel, keyCount, needed, draws)| < needed ==>
              forall x :: x in Residues(draws, keyCount) ==> x in Pick(sel, keyCount, needed, draws)
    decreases |draws|
  {
    if |sel| >= needed || |draws| == 0 {
    } else {
      var next := Step(sel, keyCount, draws[0]);
      PickCoverage(next, keyCount, needed, draws[1..]);
      assert Residues(draws, keyCount) == [draws[0] % keyCount] + Residues(draws[1..], keyCount);
      assert Pick(sel, keyCount, needed, draws) == Pick(next, keyCount, needed, draws[1..]);
      assert next <= Pick(next, keyCount, needed, draws[1..]);
    }
  }

  /** The selection the run uses: the fold from the empty list. */
  function Select(keyCount: nat, needed: int, draws: seq<nat>): (r: seq<nat>)
    requires needed <= keyCount
    ensures Distinct(r) && InRange(r, keyCount)
    ensures |r| <= Wanted(needed)
  {
    PickValid([], keyCount, needed, draws);
    Pick([], keyCount, needed, draws)
  }

  /** The indices a sequence holds. */
  function Elements(s: seq<nat>): set<nat> {
    set x | x in s
  }

  /** A duplicate-free sequence has as many distinct elements as entries. */
  lemma {:induction false} DistinctCardinality(s: seq<nat>)
    requires Distinct(s)
    ensures |Elements(s)| == |s|
  {
    if |s| > 0 {
      var init, last := s[..|s| - 1], s[|s| - 1];
      assert s == init + [last];
      assert Distinct(init);
      DistinctCardinality(init);
      var a, b := Elements(init), Elements(s);
      assert b == a + {last};
      assert last !in a by {
        forall i | 0 <= i < |init| ensures init[i] != last {
          assert s[i] != s[|s| - 1];
        }
      }
    }
  }

  /** The selection reaches the threshold exactly when the draws name at least that
      many different indices; otherwise it holds every index the draws named. */
  lemma SelectCompleteIff(keyCount: nat, needed: int, draws: seq<nat>)
    requires 0 < needed <= keyCount
    ensures |Select(keyCount, needed, draws)| == needed <==> |Named(draws, keyCount)| >= needed
    ensures |Select(keyCount, needed, draws)| < needed ==>
              Elements(Select(keyCount, needed, draws)) == Named(draws, keyCount)
  {
    var r := Select(keyCount, needed, draws);
    var chosen, named := Elements(r), Named(draws, keyCount);
    PickCoverage([], keyCount, needed, draws);
    DistinctCardinality(r);
    assert chosen <= named by {
      forall x | x in chosen ensures x in named {
        assert x in r;
      }
    }
    if |r| < needed {
      assert named <= chosen by {
        forall x | x in named ensures x in chosen {
          assert x in Residues(draws, keyCount);
        }
      }
      assert chosen == named;
    } else {
      CardinalityOfSubset(chosen, named);
    }
  }

  /** A subset is no larger than its superset. */
  lemma CardinalityOfSubset(a: set<nat>, b: set<nat>)
    requires a <= b
    ensures |a| <= |b|
  {
    assert b == a + (b - a);
  }

  /** Once the selection is complete, later draws are never consumed. */
  lemma {:induction false} PickIgnoresLaterDraws(sel: seq<nat>, keyCount: nat, needed: int, draws: seq<nat>, more: seq<nat>)
    requires needed <= keyCount
    requires |Pick(sel, keyCount, needed, draws)| >= needed
    ensures Pick(sel, keyCount, needed, draws + more) == Pick(sel, keyCount, needed, draws)
    decreases |draws|
  {
    if |sel| < needed && |draws| > 0 {
      var next := Step(sel, keyCount, draws[0]);
      assert (draws + more)[0] == draws[0];
      assert (draws + more)[1..] == draws[1..] + more;
      assert Pick(sel, keyCount, needed, draws) == Pick(next, keyCount, needed, draws[1..]);
      assert Pick(sel, keyCount, needed, draws + more) == Pick(next, keyCount, needed, draws[1..] + more);
      PickIgnoresLaterDraws(next, keyCount, needed, draws[1..], more);
    }
  }

  /** Extending a draw sequence extends the selection made from it. */
  lemma {:induction false} PickMonotone(sel: seq<nat>, keyCount: nat, needed: int, draws: seq<nat>, more: seq<nat>)
    requires needed <= keyCount
    ensures Pick(sel, keyCount, needed, draws) <= Pick(sel, keyCount, needed, draws + more)
    decreases |draws|
  {
    if |sel| >= needed {
    } else if |draws| == 0 {
      assert draws + more == more;
    } else {
      assert (draws + more)[0] == draws[0];
      assert (draws + more)[1..] == draws[1..] + more;
      PickMonotone(Step(sel, keyCount, draws[0]), keyCount, needed, draws[1..], more);
    }
  }

  /** The inner scan of the loop: walks the whole selection without stopping early. */
  method Contains(sel: seq<nat>, n: nat) returns (found: bool)
    ensures found <==> n in sel
  {
    found := false;
    var j := 0;
    while j < |sel|
      invariant 0 <= j <= |sel|
      invariant found <==> n in sel[..j]
    {
      if sel[j] == n {
        found := true;
      }
      assert sel[..j + 1] == sel[..j] + [sel[j]];
      j := j + 1;
    }
    assert sel[..j] == sel;
  }

  /** The selection loop as written: draw, reduce, scan, append when new. `used` is
      the number of draws consumed. */
  method SelectKeyIndexes(keyCount: nat, needed: int, draws: seq<nat>) returns (sel: seq<nat>, used: nat)
    requires needed <= keyCount
    ensures sel == Select(keyCount, needed, draws)
    ensures used <= |draws|
    ensures sel == Select(keyCount, needed, draws[..used])
    ensures |sel| < needed ==> used == |draws|
    ensures |sel| <= used
  {
    sel := [];
    used := 0;
    while |sel| < needed && used < |draws|
      invariant used <= |draws|
      invariant |sel| <= used
      invariant sel == Select(keyCount, needed, draws[..used])
    {
      var n := draws[used] % keyCount;
      var keyExists := Contains(sel, n);
      ghost var before := sel;
      if !keyExists {
        sel := sel + [n];
      }
      assert sel == Step(before, keyCount, draws[used]);
      LoopStep(keyCount, needed, draws, used);
      used := used + 1;
    }
    LoopExit(keyCount, needed, draws, used);
  }

  /** One turn of the selection loop extends the fold by one step. */
  lemma LoopStep(keyCount: nat, needed: int, draws: seq<nat>, used: nat)
    requires needed <= keyCount && used < |draws|
    requires |Select(keyCount, needed, draws[..used])| < needed
    ensures Select(keyCount, needed, draws[..used + 1])
            == Step(Select(keyCount, needed, draws[..used]), keyCount, draws[used])
  {
    PickStepAtEnd(keyCount, needed, draws[..used], draws[used]);
    assert draws[..used + 1] == draws[..used] + [draws[used]];
  }

  /** When the selection loop stops, having consumed `used` draws, its selection is
      the fold over all the draws. */
  lemma LoopExit(keyCount: nat, needed: int, draws: seq<nat>, used: nat)
    requires needed <= keyCount && used <= |draws|
    requires |Pick([], keyCount, needed, draws[..used])| >= needed || used == |draws|
    ensures Pick([], keyCount, needed, draws[..used]) == Pick([], keyCount, needed, draws)
  {
    var done, rest := draws[..used], draws[used..];
    if used < |draws| {
      assert |Pick([], keyCount, needed, done)| >= needed;
      assert done + rest == draws;
      PickIgnoresLaterDraws([], keyCount, needed, done, rest);
    } else {
      assert done == draws;
    }
  }

  /** One more draw on an incomplete selection is one more step. */
  lemma {:induction false} PickStepAtEnd(keyCount: nat, needed: int, draws: seq<nat>, d: nat)
    requires needed <= keyCount
    requires |Select(keyCount, needed, draws)| < needed
    ensures Select(keyCount, needed, draws + [d]) == Step(Select(keyCount, needed, draws), keyCount, d)
  {
    PickStepAtEndFrom([], keyCount, needed, draws, d);
  }

  /** The same, from any partial selection. */
  lemma {:induction false} PickStepAtEndFrom(sel: seq<nat>, keyCount: nat, needed: int, draws: seq<nat>, d: nat)
    requires needed <= keyCount
    requires |Pick(sel, keyCount, needed, draws)| < needed
    ensures Pick(sel, keyCount, needed, draws + [d]) == Step(Pick(sel, keyCount, needed, draws), keyCount, d)
    decreases |draws|
  {
    if |draws| == 0 {
      assert draws + [d] == [d];
      assert [d][1..] == [];
      var next := Step(sel, keyCount, d);
      assert Pick(next, keyCount, needed, []) == next;
    } else {
      assert (draws + [d])[0] == draws[0];
      assert (draws + [d])[1..] == draws[1..] + [d];
      PickStepAtEndFrom(Step(sel, keyCount, draws[0]), keyCount, needed, draws[1..], d);
    }
  }
}
