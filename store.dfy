/** The competitor table `Data` (main.py:42-55 and 97-121, repeated in
    reader.py:42-55 and 97-118): loading the table row by row, selecting the
    competitors of a contest, and pairing the scores of the competitors who
    took part in two contests. */
module Store {
  import opened Wrappers
  import opened Records

  /** The values before the first error of a sequence of results, and that
      error (`None` when there is none). */
  function TakeOk<T, E>(results: seq<Result<T, E>>): (seq<T>, Option<E>)
  {
    if |results| == 0 then ([], None)
    else match results[0]
      case Err(e) => ([], Some(e))
      case Ok(v) =>
        var rest := TakeOk(results[1..]);
        ([v] + rest.0, rest.1)
  }

  /** `TakeOk` keeps the leading `Ok` values in order and reports the first
      error, if any. */
  lemma {:induction false} TakeOkSpec<T, E>(results: seq<Result<T, E>>)
    ensures var r := TakeOk(results);
      && |r.0| <= |results|
      && (forall i :: 0 <= i < |r.0| ==> results[i] == Ok(r.0[i]))
      && (r.1.None? <==> |r.0| == |results|)
      && (r.1.Some? ==> results[|r.0|] == Err(r.1.value))
  {
    if |results| > 0 && results[0].Ok? {
      TakeOkSpec(results[1..]);
      var rest := TakeOk(results[1..]);
      var r := TakeOk(results);
      assert r.0 == [results[0].value] + rest.0;
      assert forall i :: 0 < i < |r.0| ==> r.0[i] == rest.0[i - 1] && results[i] == results[1..][i - 1];
    }
  }

  /** The table rows decoded one by one. */
  function DecodeEachRow(rows: seq<seq<string>>, contests: seq<string>, parseFloat: string -> Option<Score>)
    : (results: seq<Result<OIer, Error>>)
    ensures |results| == |rows|
    ensures forall i :: 0 <= i < |rows| ==> results[i] == DecodeOIer(rows[i], contests, parseFloat)
  {
    seq(|rows|, i requires 0 <= i < |rows| => DecodeOIer(rows[i], contests, parseFloat))
  }

  /** Decodes table rows up to the first one that fails: the competitors
      decoded before it, and its error (`None` when every row decodes).
      This is `TakeOk(DecodeEachRow(..))` (lemma `DecodeRowsTakeOk`), written
      with direct recursion so that the loop of `Load` unfolds one row at a
      time; the general facts are proved once, about `TakeOk`. */
  function DecodeRows(rows: seq<seq<string>>, contests: seq<string>, parseFloat: string -> Option<Score>)
    : (seq<OIer>, Option<Error>)
  {
    if |rows| == 0 then ([], None)
    else match DecodeOIer(rows[0], contests, parseFloat)
      case Err(e) => ([], Some(e))
      case Ok(oier) =>
        var rest := DecodeRows(rows[1..], contests, parseFloat);
        ([oier] + rest.0, rest.1)
  }

  /** One step of `DecodeRows` from row `i`, with the competitors decoded
      before row `i` in front. */
  lemma DecodeRowsStep(rows: seq<seq<string>>, i: nat, loaded: seq<OIer>,
                       contests: seq<string>, parseFloat: string -> Option<Score>)
    requires i < |rows|
    ensures var r, next := DecodeRows(rows[i..], contests, parseFloat), DecodeRows(rows[i + 1..], contests, parseFloat);
      match DecodeOIer(rows[i], contests, parseFloat)
      case Err(e) => loaded + r.0 == loaded && r.1 == Some(e)
      case Ok(v) => loaded + r.0 == (loaded + [v]) + next.0 && r.1 == next.1
  {
    assert rows[i..][0] == rows[i];
    assert rows[i..][1..] == rows[i + 1..];
  }

  /** Decoding the rows is `TakeOk` over the rows decoded one by one. */
  lemma {:induction false} DecodeRowsTakeOk(rows: seq<seq<string>>, contests: seq<string>, parseFloat: string -> Option<Score>)
    ensures DecodeRows(rows, contests, parseFloat) == TakeOk(DecodeEachRow(rows, contests, parseFloat))
  {
    if |rows| > 0 {
      DecodeRowsTakeOk(rows[1..], contests, parseFloat);
      assert DecodeEachRow(rows, contests, parseFloat)[1..] == DecodeEachRow(rows[1..], contests, parseFloat);
    }
  }

  /** The decoded competitors are those of the leading rows that decode, in
      order; the error, if any, is that of the first row that fails. */
  lemma DecodeRowsSpec(rows: seq<seq<string>>, contests: seq<string>, parseFloat: string -> Option<Score>)
    ensures var r := DecodeRows(rows, contests, parseFloat);
      && |r.0| <= |rows|
      && (forall i :: 0 <= i < |r.0| ==> DecodeOIer(rows[i], contests, parseFloat) == Ok(r.0[i]))
      && (r.1.None? <==> |r.0| == |rows|)
      && (r.1.Some? ==> DecodeOIer(rows[|r.0|], contests, parseFloat) == Err(r.1.value))
  {
    DecodeRowsTakeOk(rows, contests, parseFloat);
    TakeOkSpec(DecodeEachRow(rows, contests, parseFloat));
  }

  /** The competitors paired by `compare_contests`: the table indices in the
      order the loop visited them, and the two score lists it built. */
  datatype Pairing = Pairing(competitors: seq<nat>, scoresA: seq<Score>, scoresB: seq<Score>)

  /** The number of naturals below `n` in a set bounds its size. */
  lemma {:induction false} CardBelow(s: set<nat>, n: nat)
    requires forall i :: i in s ==> i < n
    ensures |s| <= n
  {
    if n > 0 {
      var rest := s - {n - 1};
      CardBelow(rest, n - 1);
    } else {
      assert s == {};
    }
  }

  class Data {
    /** `oier_table`: the decoded competitors, in the order of the rows. */
    var oierTable: seq<OIer>

    /** A table with no competitors yet. */
    constructor ()
      ensures oierTable == []
    {
      oierTable := [];
    }

    /** The loading loop of `Data.__init__`: each row is decoded and appended;
        a row that fails stops the loop, leaving the rows before it appended. */
    method Load(rows: seq<seq<string>>, contests: seq<string>, parseFloat: string -> Option<Score>)
      returns (failure: Option<Error>)
      modifies this
      ensures oierTable == old(oierTable) + DecodeRows(rows, contests, parseFloat).0
      ensures failure == DecodeRows(rows, contests, parseFloat).1
    {
      ghost var all := DecodeRows(rows, contests, parseFloat);
      ghost var loaded: seq<OIer> := [];
      var i := 0;
      while i < |rows|
        invariant 0 <= i <= |rows|
        invariant oierTable == old(oierTable) + loaded
        invariant all.0 == loaded + DecodeRows(rows[i..], contests, parseFloat).0
        invariant all.1 == DecodeRows(rows[i..], contests, parseFloat).1
      {
        DecodeRowsStep(rows, i, loaded, contests, parseFloat);
        var oier := NewOIer(rows[i], contests, parseFloat);
        if oier.Err? {
          return Some(oier.error);
        }
        oierTable := oierTable + [oier.value];
        loaded := loaded + [oier.value];
        i := i + 1;
      }
      assert rows[i..] == [];
      failure := None;
    }

    /** `get_oiers_by_contest`: the indices of the competitors who took part
        in the contest. */
    function GetOiersByContest(contestName: string): (indices: set<nat>)
      reads this
      ensures forall i :: i in indices ==> i < |oierTable| && contestName in oierTable[i].records
      ensures forall i :: 0 <= i < |oierTable| && oierTable[i].Participated(contestName) ==> i in indices
      ensures |indices| <= |oierTable|
    {
      var indices := set i: nat | i < |oierTable| && oierTable[i].Participated(contestName);
      CardBelow(indices, |oierTable|);
      indices
    }

    /** The score lists of `compare_contests` for `target`: one position per
        competitor of `target`, each exactly once, with that competitor's
        scores in the two contests. */
    ghost predicate Aligned(p: Pairing, contestA: string, contestB: string, target: set<nat>)
      reads this
    {
      && |p.competitors| == |p.scoresA| == |p.scoresB| == |target|
      && (forall i :: i in target ==> i in p.competitors)
      && (forall k, l :: 0 <= k < l < |p.competitors| ==> p.competitors[k] != p.competitors[l])
      && (forall k :: 0 <= k < |p.competitors| ==>
            var i := p.competitors[k];
            && i in target
            && i < |oierTable|
            && contestA in oierTable[i].records
            && contestB in oierTable[i].records
            && p.scoresA[k] == oierTable[i].records[contestA].score
            && p.scoresB[k] == oierTable[i].records[contestB].score)
    }

    /** The loop of `compare_contests`: visits the competitors of `target` in
        an arbitrary order and appends their two scores. */
    method PairScores(contestA: string, contestB: string, target: set<nat>) returns (p: Pairing)
      requires forall i :: i in target ==> i < |oierTable| && oierTable[i].Participated(contestA)
                                           && oierTable[i].Participated(contestB)
      ensures Aligned(p, contestA, contestB, target)
    {
      var remaining := target;
      var competitors: seq<nat> := [];
      var scoresA: seq<Score> := [];
      var scoresB: seq<Score> := [];
      while remaining != {}
        invariant remaining <= target
        invariant |competitors| == |scoresA| == |scoresB|
        invariant |competitors| + |remaining| == |target|
        invariant forall i :: i in target ==> i in remaining || i in competitors
        invariant forall k, l :: 0 <= k < l < |competitors| ==> competitors[k] != competitors[l]
        invariant forall k :: 0 <= k < |competitors| ==> competitors[k] in target && competitors[k] !in remaining
        invariant forall k :: 0 <= k < |competitors| ==>
                    var i := competitors[k];
                    && i < |oierTable|
                    && contestA in oierTable[i].records
                    && contestB in oierTable[i].records
                    && scoresA[k] == oierTable[i].records[contestA].score
                    && scoresB[k] == oierTable[i].records[contestB].score
        decreases |remaining|
      {
        var i :| i in remaining;
        var oier := oierTable[i];
        competitors := competitors + [i];
        scoresA := scoresA + [oier.records[contestA].score];
        scoresB := scoresB + [oier.records[contestB].score];
        remaining := remaining - {i};
      }
      p := Pairing(competitors, scoresA, scoresB);
    }

    /** The data-gathering half of `compare_contests` (main.py): the two score
        lists are aligned over the competitors who took part in both contests. */
    method CompareContests(contestA: string, contestB: string) returns (p: Pairing)
      ensures Aligned(p, contestA, contestB, GetOiersByContest(contestA) * GetOiersByContest(contestB))
    {
      var contestAOiers := GetOiersByContest(contestA);
      var contestBOiers := GetOiersByContest(contestB);
      var targetOiers := contestAOiers * contestBOiers;
      p := PairScores(contestA, contestB, targetOiers);
    }

    /** The data-gathering half of `compare_contests` (reader.py): nothing is
        built when no competitor took part in both contests; otherwise the two
        score lists are non-empty and aligned over those competitors. */
    method CompareContestsChecked(contestA: string, contestB: string) returns (r: Option<Pairing>)
      ensures r.None? <==> GetOiersByContest(contestA) * GetOiersByContest(contestB) == {}
      ensures r.Some? ==> |r.value.scoresA| > 0
                          && Aligned(r.value, contestA, contestB,
                                     GetOiersByContest(contestA) * GetOiersByContest(contestB))
    {
      var contestAOiers := GetOiersByContest(contestA);
      var contestBOiers := GetOiersByContest(contestB);
      var targetOiers := contestAOiers * contestBOiers;
      if |targetOiers| == 0 {
        return None;
      }
      var p := PairScores(contestA, contestB, targetOiers);
      r := Some(p);
    }
  }
}
