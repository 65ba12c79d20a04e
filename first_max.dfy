/**
 * The root selection rule both agents share: walk the moves in order, skip
 * the ones that produce no score, and take a move only when its score is
 * strictly greater than the best so far (`if val > best_val`). FirstMax is
 * that rule over precomputed scores; it is the reference the agents' root
 * loops are proved against.
 */
module Choice {
  import opened ExtReals
  import opened Game

  datatype Pick = Pick(choice: Move, val: ExtReal)

  /** Scan moves[i..] from the pick acc; scores[j] is None when moves[j] is skipped */
  function FirstMax(moves: seq<Move>, scores: seq<Option<ExtReal>>, i: nat, acc: Pick): Pick
    requires |scores| == |moves| && i <= |moves|
    decreases |moves| - i
  {
    if i == |moves| then acc
    else match scores[i]
      case None => FirstMax(moves, scores, i + 1, acc)
      case Some(v) =>
        FirstMax(moves, scores, i + 1, if Lt(acc.val, v) then Pick(moves[i], v) else acc)
  }

  /**
   * r is the first strict maximum of the scores of moves[..n], starting from
   * the default move `fallback` at -inf: r.val bounds every score, and unless
   * r.val is -inf, r.choice is a move whose score is r.val and every earlier
   * scored move has a strictly smaller score. At -inf the default stands.
   */
  ghost predicate IsFirstMax(moves: seq<Move>, scores: seq<Option<ExtReal>>, n: nat, fallback: Move, r: Pick)
    requires |scores| == |moves| && n <= |moves|
  {
    && (forall j :: 0 <= j < n && scores[j].Some? ==> Le(scores[j].value, r.val))
    && (r.val == NegInf ==> r.choice == fallback)
    && (r.val != NegInf ==>
          exists k :: 0 <= k < n && moves[k] == r.choice && scores[k] == Some(r.val) &&
            forall j :: 0 <= j < k && scores[j].Some? ==> Lt(scores[j].value, r.val))
  }

  /** A strictly greater score takes over: it is the first maximum of one more move */
  lemma TakeGreater(moves: seq<Move>, scores: seq<Option<ExtReal>>, i: nat, fallback: Move, acc: Pick, v: ExtReal)
    requires |scores| == |moves| && i < |moves| && scores[i] == Some(v)
    requires IsFirstMax(moves, scores, i, fallback, acc) && Lt(acc.val, v)
    ensures IsFirstMax(moves, scores, i + 1, fallback, Pick(moves[i], v))
  {
    forall j | 0 <= j < i && scores[j].Some?
      ensures Lt(scores[j].value, v)
    {
      assert Le(scores[j].value, acc.val);
    }
  }

  /** A score that is not strictly greater leaves the first maximum as it was */
  lemma KeepPick(moves: seq<Move>, scores: seq<Option<ExtReal>>, i: nat, fallback: Move, acc: Pick)
    requires |scores| == |moves| && i < |moves|
    requires IsFirstMax(moves, scores, i, fallback, acc)
    requires scores[i].Some? ==> !Lt(acc.val, scores[i].value)
    ensures IsFirstMax(moves, scores, i + 1, fallback, acc)
  {
    if acc.val != NegInf {
      var k :| 0 <= k < i && moves[k] == acc.choice && scores[k] == Some(acc.val) &&
               forall j :: 0 <= j < k && scores[j].Some? ==> Lt(scores[j].value, acc.val);
      assert 0 <= k < i + 1;
    }
  }

  lemma {:induction false} FirstMaxFrom(moves: seq<Move>, scores: seq<Option<ExtReal>>, i: nat, fallback: Move, acc: Pick)
    requires |scores| == |moves| && i <= |moves|
    requires IsFirstMax(moves, scores, i, fallback, acc)
    ensures IsFirstMax(moves, scores, |moves|, fallback, FirstMax(moves, scores, i, acc))
    decreases |moves| - i
  {
    if i < |moves| {
      match scores[i]
      case None =>
        KeepPick(moves, scores, i, fallback, acc);
        FirstMaxFrom(moves, scores, i + 1, fallback, acc);
      case Some(v) =>
        if Lt(acc.val, v) {
          TakeGreater(moves, scores, i, fallback, acc, v);
          FirstMaxFrom(moves, scores, i + 1, fallback, Pick(moves[i], v));
        } else {
          KeepPick(moves, scores, i, fallback, acc);
          FirstMaxFrom(moves, scores, i + 1, fallback, acc);
        }
    }
  }

  /** Starting at -inf with a default move, FirstMax picks the first strict maximum */
  lemma FirstMaxIsFirstStrictMaximum(moves: seq<Move>, scores: seq<Option<ExtReal>>, fallback: Move)
    requires |scores| == |moves|
    ensures IsFirstMax(moves, scores, |moves|, fallback, FirstMax(moves, scores, 0, Pick(fallback, NegInf)))
  {
    FirstMaxFrom(moves, scores, 0, fallback, Pick(fallback, NegInf));
  }

  /** The pick is the default or one of the moves */
  lemma FirstMaxChoosesAMove(moves: seq<Move>, scores: seq<Option<ExtReal>>, fallback: Move)
    requires |scores| == |moves|
    ensures var r := FirstMax(moves, scores, 0, Pick(fallback, NegInf));
      r.choice == fallback || r.choice in moves
  {
    FirstMaxIsFirstStrictMaximum(moves, scores, fallback);
  }

  /** Nothing beats +inf strictly: from a pick at +inf the scan keeps it */
  lemma {:induction false} FirstMaxKeepsTop(moves: seq<Move>, scores: seq<Option<ExtReal>>, i: nat, acc: Pick)
    requires |scores| == |moves| && i <= |moves| && acc.val == PosInf
    ensures FirstMax(moves, scores, i, acc) == acc
    decreases |moves| - i
  {
    if i < |moves| {
      FirstMaxKeepsTop(moves, scores, i + 1, acc);
    }
  }
}
