/**
 * Circular keyboard navigation over the option list (`getPrevOptionIndex`,
 * `getNextOptionIndex`). `None` stands for "nothing highlighted"; `count` is the length of
 * the options sequence.
 */
module Navigation {
  import opened Optional

  /** The index ArrowUp moves to: nothing highlighted goes to the first option, the first
      option wraps to the last, any other index moves one up. With no options at all the
      wrap gives -1, as the source's `options.length - 1` does. */
  function PrevIndex(current: Option<nat>, count: nat): (r: int)
    ensures r >= -1
    ensures count > 0 && InRange(current, count) ==> 0 <= r < count
  {
    match current
    case None => 0
    case Some(i) => if i == 0 then count - 1 else i - 1
  }

  /** The index ArrowDown moves to: nothing highlighted goes to the first option, the last
      option wraps to the first, any other index moves one down. */
  function NextIndex(current: Option<nat>, count: nat): (r: nat)
    ensures count > 0 && InRange(current, count) ==> r < count
  {
    match current
    case None => 0
    case Some(i) => if i == count - 1 then 0 else i + 1
  }

  /** Whichever direction is pressed first, navigation with nothing highlighted starts at the
      first option. */
  lemma FirstNavigationStartsAtZero(count: nat)
    ensures NextIndex(None, count) == 0 && PrevIndex(None, count) == 0
  {
  }

  /** Within a non-empty list, ArrowDown is the successor modulo the length. */
  lemma NextIsSuccessorModulo(i: nat, count: nat)
    requires i < count
    ensures NextIndex(Some(i), count) == (i + 1) % count
  {
    if i == count - 1 {
      assert i + 1 == count;
    }
  }

  /** Within a non-empty list, ArrowUp is the predecessor modulo the length. */
  lemma PrevIsPredecessorModulo(i: nat, count: nat)
    requires i < count
    ensures PrevIndex(Some(i), count) == (i + count - 1) % count
  {
    if i == 0 {
      assert i + count - 1 == count - 1;
    } else {
      assert i + count - 1 == (i - 1) + count;
    }
  }

  /** ArrowDown then ArrowUp, and ArrowUp then ArrowDown, return to the highlighted option,
      for every list length including one. */
  lemma PrevNextInverse(i: nat, count: nat)
    requires i < count
    ensures PrevIndex(Some(NextIndex(Some(i), count)), count) == i
    ensures NextIndex(Some(PrevIndex(Some(i), count) as nat), count) == i
  {
  }

  /** The highlight after pressing ArrowDown `presses` times, starting from `start`. */
  function NextAfter(start: Option<nat>, count: nat, presses: nat): (r: Option<nat>) {
    if presses == 0 then start else Some(NextIndex(NextAfter(start, count, presses - 1), count))
  }

  /** Pressing ArrowDown `a + b` times is pressing it `a` times and then `b` times more. */
  lemma {:induction false} NextAfterAdd(start: Option<nat>, count: nat, a: nat, b: nat)
    ensures NextAfter(start, count, a + b) == NextAfter(NextAfter(start, count, a), count, b)
  {
    if b > 0 {
      NextAfterAdd(start, count, a, b - 1);
      assert a + b - 1 == a + (b - 1);
    }
  }

  /** Short of the end of the list, `k` presses of ArrowDown move the highlight `k` options
      down. */
  lemma {:induction false} NextAfterMovesDown(i: nat, count: nat, k: nat)
    requires i + k < count
    ensures NextAfter(Some(i), count, k) == Some(i + k)
  {
    if k > 0 {
      NextAfterMovesDown(i, count, k - 1);
    }
  }

  /** Pressing ArrowDown once per option brings the highlight back to where it started: the
      walk passes the last option, wraps to the first and climbs back. */
  lemma {:induction false} FullCycleReturns(i: nat, count: nat)
    requires i < count
    ensures NextAfter(Some(i), count, count) == Some(i)
  {
    var toLast := count - 1 - i;
    NextAfterMovesDown(i, count, toLast);
    NextAfterAdd(Some(i), count, toLast, 1);
    assert NextAfter(Some(i), count, toLast + 1) == Some(0);
    NextAfterAdd(Some(i), count, toLast + 1, i);
    NextAfterMovesDown(0, count, i);
    assert toLast + 1 + i == count;
  }
}
