/** `OIer` records (main.py:14-39, repeated verbatim in reader.py:14-39): a
    results-table row is decoded into a competitor whose `records` map each
    contest name to the `(score, rank)` pair of that participation.

    The participation string is a `/`-separated list of entries, each a
    `:`-separated list of fields `contest_id : _ : score : rank [: ...]`.
    Python exceptions become `Err` values; the first one raised wins. */
module Records {
  import opened Wrappers
  import opened PyText

  /** A float score: `NaN` (what `float("nan")` gives, stored when the score
      field is empty), an infinity (`negative` for `float("-inf")`), or a
      finite value. */
  datatype Score = NaN | Inf(negative: bool) | Num(value: real)

  /** One `(score, rank)` entry of `OIer.records`. */
  datatype Participation = Participation(score: Score, rank: int)

  /** The exceptions decoding can raise. */
  datatype Error = IndexError | ValueError | AssertionError

  /** A decoded competitor. `gender` is the code -1, 0 or 1, `enrollMiddle`
      the middle-school enrolment year. */
  datatype OIer = OIer(name: string, gender: int, enrollMiddle: int, records: map<string, Participation>)
  {
    /** `participated`: the competitor has an entry for the contest. */
    predicate Participated(contestName: string) {
      contestName in records
    }
  }

  /** The rank recorded when the rank field is empty. */
  const UNRANKED: int := -1

  /** `xs[i]` with Python's negative indices counting from the end. */
  function PyIndex<T>(xs: seq<T>, i: int): (r: Result<T, Error>)
    ensures r.Ok? <==> -|xs| <= i < |xs|
    ensures r.Ok? ==> r.value in xs && r.value == xs[if i >= 0 then i else |xs| + i]
    ensures r.Err? ==> r.error == IndexError
  {
    if 0 <= i < |xs| then Ok(xs[i])
    else if -|xs| <= i < 0 then Ok(xs[|xs| + i])
    else Err(IndexError)
  }

  /** The score field: empty means NaN, anything else goes through `float()`,
      which is supplied as `parseFloat` (`None` for its ValueError). */
  function DecodeScore(field: string, parseFloat: string -> Option<Score>): (r: Result<Score, Error>)
    ensures field == "" ==> r == Ok(NaN)
    ensures field != "" ==> (r.Ok? <==> parseFloat(field).Some?) && (r.Ok? ==> parseFloat(field) == Some(r.value))
    ensures r.Err? ==> r.error == ValueError
  {
    if field == "" then Ok(NaN)
    else match parseFloat(field)
      case None => Err(ValueError)
      case Some(score) => Ok(score)
  }

  /** The rank field: empty means `UNRANKED`, anything else goes through `int()`. */
  function DecodeRank(field: string): (r: Result<int, Error>)
    ensures field == "" ==> r == Ok(UNRANKED)
    ensures field != "" ==> (r.Ok? <==> ParseInt(field).Some?) && (r.Ok? ==> ParseInt(field) == Some(r.value))
    ensures r.Err? ==> r.error == ValueError
  {
    if field == "" then Ok(UNRANKED)
    else match ParseInt(field)
      case None => Err(ValueError)
      case Some(rank) => Ok(rank)
  }

  /** The body of the `parse_records` loop for one entry: the contest name
      (looked up by id in `contests`, the catalogue of contest names) and the
      participation stored under it. Fields are read in the source's order,
      so the first failing field decides the error. */
  function DecodeEntry(entry: string, contests: seq<string>, parseFloat: string -> Option<Score>)
    : (r: Result<(string, Participation), Error>)
    ensures r.Ok? ==> r.value.0 in contests
    ensures r.Err? ==> r.error != AssertionError
  {
    var contest := Split(entry, ':');
    match ParseInt(contest[0])
    case None => Err(ValueError)
    case Some(contestId) =>
      if |contest| < 3 then Err(IndexError)
      else match DecodeScore(contest[2], parseFloat)
        case Err(e) => Err(e)
        case Ok(score) =>
          if |contest| < 4 then Err(IndexError)
          else match DecodeRank(contest[3])
            case Err(e) => Err(e)
            case Ok(rank) =>
              match PyIndex(contests, contestId)
              case Err(e) => Err(e)
              case Ok(contestName) => Ok((contestName, Participation(score, rank)))
  }

  /** The outcome of decoding one entry, field by field in the order the
      source reads them: a contest id that is not an integer is a ValueError;
      a missing score or rank field is an IndexError; a score that `float()`
      rejects or a rank that `int()` rejects is a ValueError; an id outside
      `-len(contests)..len(contests)-1` is an IndexError. A decoded entry
      names `contests[id]`, with `NaN` for an empty score, `UNRANKED` for an
      empty rank and the parsed values otherwise. */
  lemma DecodeEntryFields(entry: string, contests: seq<string>, parseFloat: string -> Option<Score>)
    ensures var fields, r := Split(entry, ':'), DecodeEntry(entry, contests, parseFloat);
      var id := ParseInt(fields[0]);
      && (id.None? ==> r == Err(ValueError))
      && (id.Some? && |fields| < 3 ==> r == Err(IndexError))
      && (|fields| < 4 ==> r.Err?)
      && (id.Some? && |fields| == 3 && DecodeScore(fields[2], parseFloat).Ok? ==> r == Err(IndexError))
      && (id.Some? && |fields| >= 3 && fields[2] != "" && parseFloat(fields[2]).None? ==> r == Err(ValueError))
      && ((id.Some? && |fields| >= 4 && DecodeScore(fields[2], parseFloat).Ok?
             && fields[3] != "" && ParseInt(fields[3]).None?) ==> r == Err(ValueError))
      && ((id.Some? && |fields| >= 4 && DecodeScore(fields[2], parseFloat).Ok? && DecodeRank(fields[3]).Ok?
             && !(-|contests| <= id.value < |contests|)) ==> r == Err(IndexError))
      && (r.Ok? ==> id.Some? && -|contests| <= id.value < |contests|
                    && r.value.0 == contests[if id.value >= 0 then id.value else |contests| + id.value])
      && (r.Ok? && fields[2] == "" ==> r.value.1.score == NaN)
      && (r.Ok? && fields[2] != "" ==> parseFloat(fields[2]) == Some(r.value.1.score))
      && (r.Ok? && fields[3] == "" ==> r.value.1.rank == UNRANKED)
      && (r.Ok? && fields[3] != "" ==> ParseInt(fields[3]) == Some(r.value.1.rank))
  {
  }

  /** A decoded entry, or the exception raised while decoding it. */
  type Decoded = Result<(string, Participation), Error>

  /** The `parse_records` loop over already decoded entries: each entry is
      stored under its contest name, a later entry overwriting an earlier one
      with the same name, and the first error stops the loop. */
  function StoreEntries(decoded: seq<Decoded>): Result<map<string, Participation>, Error> {
    if |decoded| == 0 then Ok(map[])
    else match StoreEntries(decoded[..|decoded| - 1])
      case Err(e) => Err(e)
      case Ok(records) =>
        match decoded[|decoded| - 1]
        case Err(e) => Err(e)
        case Ok(entry) => Ok(records[entry.0 := entry.1])
  }

  /** The entries of a participation string decoded one by one. */
  function DecodeAll(entries: seq<string>, contests: seq<string>, parseFloat: string -> Option<Score>)
    : (decoded: seq<Decoded>)
    ensures |decoded| == |entries|
    ensures forall j :: 0 <= j < |entries| ==> decoded[j] == DecodeEntry(entries[j], contests, parseFloat)
  {
    seq(|entries|, j requires 0 <= j < |entries| => DecodeEntry(entries[j], contests, parseFloat))
  }

  /** What `self.records` holds once `parse_records` has run over `entries`:
      the records of all entries but the last, updated with the last one.
      This is `StoreEntries(DecodeAll(..))` (lemma `DecodeRecordsStore`),
      written with direct recursion so that unfolding it does not unfold
      every entry's decoding; the general lemmas are stated on
      `StoreEntries`, which never mentions the text format. */
  function DecodeRecords(entries: seq<string>, contests: seq<string>, parseFloat: string -> Option<Score>)
    : Result<map<string, Participation>, Error>
  {
    if |entries| == 0 then Ok(map[])
    else match DecodeRecords(entries[..|entries| - 1], contests, parseFloat)
      case Err(e) => Err(e)
      case Ok(records) =>
        match DecodeEntry(entries[|entries| - 1], contests, parseFloat)
        case Err(e) => Err(e)
        case Ok(entry) => Ok(records[entry.0 := entry.1])
  }

  /** Decoding the records is storing the entries decoded one by one. */
  lemma {:induction false} DecodeRecordsStore(entries: seq<string>, contests: seq<string>, parseFloat: string -> Option<Score>)
    ensures DecodeRecords(entries, contests, parseFloat) == StoreEntries(DecodeAll(entries, contests, parseFloat))
  {
    if |entries| > 0 {
      var init := entries[..|entries| - 1];
      DecodeRecordsStore(init, contests, parseFloat);
      assert DecodeAll(entries, contests, parseFloat)[..|entries| - 1] == DecodeAll(init, contests, parseFloat);
    }
  }

  /** Once an entry has failed, later entries change nothing. */
  lemma {:induction false} StoreEntriesErrStays(decoded: seq<Decoded>, j: nat)
    requires j <= |decoded|
    requires StoreEntries(decoded[..j]).Err?
    ensures StoreEntries(decoded) == StoreEntries(decoded[..j])
    decreases |decoded| - j
  {
    if j < |decoded| {
      assert decoded[..j + 1][..j] == decoded[..j];
      StoreEntriesErrStays(decoded, j + 1);
    } else {
      assert decoded[..j] == decoded;
    }
  }

  /** `parse_records`: splits the participation string on `/` and stores
      each decoded entry in `records`, in order. */
  method ParseRecords(rawRecords: string, contests: seq<string>, parseFloat: string -> Option<Score>)
    returns (r: Result<map<string, Participation>, Error>)
    ensures r == DecodeRecords(Split(rawRecords, '/'), contests, parseFloat)
  {
    var entries := Split(rawRecords, '/');
    ghost var decoded := DecodeAll(entries, contests, parseFloat);
    var records: map<string, Participation> := map[];
    var i := 0;
    while i < |entries|
      invariant 0 <= i <= |entries|
      invariant StoreEntries(decoded[..i]) == Ok(records)
    {
      assert decoded[..i + 1][..i] == decoded[..i];
      match DecodeEntry(entries[i], contests, parseFloat)
      case Err(e) =>
        StoreEntriesErrStays(decoded, i + 1);
        DecodeRecordsStore(entries, contests, parseFloat);
        return Err(e);
      case Ok(entry) =>
        records := records[entry.0 := entry.1];
      i := i + 1;
    }
    assert decoded[..i] == decoded;
    DecodeRecordsStore(entries, contests, parseFloat);
    r := Ok(records);
  }

  /** An empty participation string is one empty entry, whose contest id
      `int("")` raises ValueError. */
  lemma EmptyRecordsRejected(contests: seq<string>, parseFloat: string -> Option<Score>)
    ensures DecodeRecords(Split("", '/'), contests, parseFloat) == Err(ValueError)
  {
    assert Split("", '/') == [""];
    assert Split("", ':') == [""];
    assert ParseInt("") == None;
    assert DecodeEntry("", contests, parseFloat) == Err(ValueError);
    assert [""][..0] == [];
  }

  /** The records are stored exactly when every entry decodes. */
  lemma {:induction false} StoreEntriesOk(decoded: seq<Decoded>)
    ensures StoreEntries(decoded).Ok? <==> forall j :: 0 <= j < |decoded| ==> decoded[j].Ok?
  {
    if |decoded| > 0 {
      var init := decoded[..|decoded| - 1];
      StoreEntriesOk(init);
      assert forall j :: 0 <= j < |init| ==> init[j] == decoded[j];
    }
  }

  /** A failure reports the error of the first entry that fails. */
  lemma {:induction false} StoreEntriesFirstError(decoded: seq<Decoded>)
    requires StoreEntries(decoded).Err?
    ensures exists j :: 0 <= j < |decoded| && decoded[j] == Err(StoreEntries(decoded).error)
                        && forall l :: 0 <= l < j ==> decoded[l].Ok?
  {
    var init := decoded[..|decoded| - 1];
    if StoreEntries(init).Err? {
      StoreEntriesFirstError(init);
      var j :| 0 <= j < |init| && init[j] == Err(StoreEntries(init).error)
               && forall l :: 0 <= l < j ==> init[l].Ok?;
      assert decoded[j] == init[j];
      assert forall l :: 0 <= l < j ==> decoded[l] == init[l];
    } else {
      StoreEntriesOk(init);
      assert forall l :: 0 <= l < |init| ==> decoded[l] == init[l];
    }
  }

  /** The keys of the stored records are the contest names of the entries. */
  lemma {:induction false} StoreEntriesKeys(decoded: seq<Decoded>)
    requires StoreEntries(decoded).Ok?
    ensures forall name :: name in StoreEntries(decoded).value <==>
              (exists j :: 0 <= j < |decoded| && decoded[j].Ok? && decoded[j].value.0 == name)
  {
    if |decoded| > 0 {
      var init := decoded[..|decoded| - 1];
      StoreEntriesKeys(init);
      assert forall j :: 0 <= j < |init| ==> init[j] == decoded[j];
    }
  }

  /** The record stored under a contest name is the one from the last entry
      with that name. */
  lemma {:induction false} StoreEntriesLastWins(decoded: seq<Decoded>, j: nat)
    requires StoreEntries(decoded).Ok?
    requires j < |decoded| && decoded[j].Ok?
    requires forall l :: j < l < |decoded| && decoded[l].Ok? ==> decoded[l].value.0 != decoded[j].value.0
    ensures decoded[j].value.0 in StoreEntries(decoded).value
    ensures StoreEntries(decoded).value[decoded[j].value.0] == decoded[j].value.1
  {
    var init := decoded[..|decoded| - 1];
    if j < |decoded| - 1 {
      assert init[j] == decoded[j];
      assert forall l :: j < l < |init| ==> init[l] == decoded[l];
      StoreEntriesLastWins(init, j);
    }
  }

  /** `parse_records` succeeds exactly when every entry decodes, and then
      its keys are the contest names the entries decode to. */
  lemma DecodeRecordsEntries(entries: seq<string>, contests: seq<string>, parseFloat: string -> Option<Score>)
    ensures DecodeRecords(entries, contests, parseFloat).Ok? <==>
              forall j :: 0 <= j < |entries| ==> DecodeEntry(entries[j], contests, parseFloat).Ok?
    ensures DecodeRecords(entries, contests, parseFloat).Ok? ==>
              forall name :: name in DecodeRecords(entries, contests, parseFloat).value <==>
                (exists j :: 0 <= j < |entries| && DecodeEntry(entries[j], contests, parseFloat).Ok?
                             && DecodeEntry(entries[j], contests, parseFloat).value.0 == name)
  {
    var decoded := DecodeAll(entries, contests, parseFloat);
    DecodeRecordsStore(entries, contests, parseFloat);
    StoreEntriesOk(decoded);
    if StoreEntries(decoded).Ok? {
      StoreEntriesKeys(decoded);
    }
  }

  /** The rank field of an encoded entry: empty for an unranked entry. */
  function RankField(rank: Option<int>): (field: string)
    ensures ':' !in field
  {
    match rank
    case None => ""
    case Some(n) => IntToString(n)
  }

  /** The rank field decodes back to the rank, or to `UNRANKED`. */
  lemma RankFieldRoundTrip(rank: Option<int>)
    ensures DecodeRank(RankField(rank)) == Ok(match rank case None => UNRANKED case Some(n) => n)
  {
    if rank.Some? {
      ParseIntRoundTrip(rank.value);
      assert IntToString(rank.value) != "";
    }
  }

  /** The text of an entry in the results table's format; the second field
      is not read by the decoder and an optional trailing field may follow. */
  function EncodeEntry(contestId: int, second: string, scoreField: string, rank: Option<int>, extra: Option<string>): string
  {
    Join([IntToString(contestId), second, scoreField, RankField(rank)] + (match extra case None => [] case Some(x) => [x]), ':')
  }

  /** The fields of an encoded entry, as `split(":")` gives them back. */
  lemma EncodeEntrySplit(contestId: int, second: string, scoreField: string, rank: Option<int>, extra: Option<string>)
    requires ':' !in second && ':' !in scoreField && (extra.Some? ==> ':' !in extra.value)
    ensures var fields := Split(EncodeEntry(contestId, second, scoreField, rank, extra), ':');
      && |fields| >= 4
      && ParseInt(fields[0]) == Some(contestId)
      && fields[2] == scoreField
      && DecodeRank(fields[3]) == Ok(match rank case None => UNRANKED case Some(n) => n)
  {
    var fields := [IntToString(contestId), second, scoreField, RankField(rank)] + (match extra case None => [] case Some(x) => [x]);
    assert forall k :: 0 <= k < |fields| ==> ':' !in fields[k];
    SplitJoin(fields, ':');
    assert Split(EncodeEntry(contestId, second, scoreField, rank, extra), ':') == fields;
    ParseIntRoundTrip(contestId);
    RankFieldRoundTrip(rank);
  }

  /** Decoding an encoded entry gives back the contest's name, the score, and
      the rank, with `UNRANKED` for an empty rank field. */
  lemma EntryRoundTrip(contestId: int, second: string, scoreField: string, score: Score, rank: Option<int>,
                       extra: Option<string>, contests: seq<string>, parseFloat: string -> Option<Score>)
    requires -|contests| <= contestId < |contests|
    requires ':' !in second && ':' !in scoreField && (extra.Some? ==> ':' !in extra.value)
    requires if scoreField == "" then score == NaN else parseFloat(scoreField) == Some(score)
    ensures DecodeEntry(EncodeEntry(contestId, second, scoreField, rank, extra), contests, parseFloat)
         == Ok((if contestId >= 0 then contests[contestId] else contests[|contests| + contestId],
                Participation(score, match rank case None => UNRANKED case Some(n) => n)))
  {
    EncodeEntrySplit(contestId, second, scoreField, rank, extra);
    assert DecodeScore(scoreField, parseFloat) == Ok(score);
  }

  /** `OIer.__init__`: the name is column 2, the gender code column 3 (checked
      by an assertion to be -1, 0 or 1), the enrolment year column 4, and the
      participation string the last column. This is the specification of the
      method `NewOIer`; functions such as `DecodeRows` cannot call a method. */
  function DecodeOIer(row: seq<string>, contests: seq<string>, parseFloat: string -> Option<Score>)
    : (r: Result<OIer, Error>)
    ensures r.Ok? ==> |row| >= 5 && r.value.name == row[2] && r.value.gender in {-1, 0, 1}
                      && ParseInt(row[3]) == Some(r.value.gender) && ParseInt(row[4]) == Some(r.value.enrollMiddle)
  {
    if |row| < 4 then Err(IndexError)
    else match ParseInt(row[3])
      case None => Err(ValueError)
      case Some(gender) =>
        if gender !in {-1, 0, 1} then Err(AssertionError)
        else if |row| < 5 then Err(IndexError)
        else match ParseInt(row[4])
          case None => Err(ValueError)
          case Some(enrollMiddle) =>
            match DecodeRecords(Split(row[|row| - 1], '/'), contests, parseFloat)
            case Err(e) => Err(e)
            case Ok(records) => Ok(OIer(row[2], gender, enrollMiddle, records))
  }

  /** The exceptions of `OIer.__init__`, in the order it reads the columns: a
      row of fewer than 4 columns is an IndexError, a non-integer gender code
      a ValueError, a gender code outside {-1, 0, 1} fails the assertion, a
      row of 4 columns is an IndexError, a non-integer enrolment year a
      ValueError; past those, the competitor is decoded exactly when
      `parse_records` succeeds on the last column, and holds its records. */
  lemma DecodeOIerChecks(row: seq<string>, contests: seq<string>, parseFloat: string -> Option<Score>)
    ensures var r := DecodeOIer(row, contests, parseFloat);
      && (|row| < 4 ==> r == Err(IndexError))
      && (|row| >= 4 && ParseInt(row[3]).None? ==> r == Err(ValueError))
      && ((|row| >= 4 && ParseInt(row[3]).Some? && ParseInt(row[3]).value !in {-1, 0, 1})
            ==> r == Err(AssertionError))
      && ((|row| == 4 && ParseInt(row[3]).Some? && ParseInt(row[3]).value in {-1, 0, 1})
            ==> r == Err(IndexError))
      && ((|row| >= 5 && ParseInt(row[3]).Some? && ParseInt(row[3]).value in {-1, 0, 1}
             && ParseInt(row[4]).None?) ==> r == Err(ValueError))
      && ((|row| >= 5 && ParseInt(row[3]).Some? && ParseInt(row[3]).value in {-1, 0, 1}
             && ParseInt(row[4]).Some?)
            ==> (r.Ok? <==> DecodeRecords(Split(row[|row| - 1], '/'), contests, parseFloat).Ok?))
      && (r.Ok? ==> DecodeRecords(Split(row[|row| - 1], '/'), contests, parseFloat) == Ok(r.value.records))
  {
  }

  /** `participated` on a decoded competitor: it took part in a contest
      exactly when some entry of its participation column decodes to that
      contest's name. */
  lemma ParticipatedIffEntry(row: seq<string>, contests: seq<string>, parseFloat: string -> Option<Score>,
                             contestName: string)
    requires DecodeOIer(row, contests, parseFloat).Ok?
    ensures |row| >= 5
    ensures var entries := Split(row[|row| - 1], '/');
      DecodeOIer(row, contests, parseFloat).value.Participated(contestName) <==>
        exists j :: 0 <= j < |entries| && DecodeEntry(entries[j], contests, parseFloat).Ok?
                    && DecodeEntry(entries[j], contests, parseFloat).value.0 == contestName
  {
    var entries := Split(row[|row| - 1], '/');
    DecodeOIerChecks(row, contests, parseFloat);
    DecodeRecordsEntries(entries, contests, parseFloat);
  }

  /** `OIer.__init__` with its call to `parse_records`, statement by
      statement; `DecodeOIer` is the same computation as a function. */
  method NewOIer(row: seq<string>, contests: seq<string>, parseFloat: string -> Option<Score>)
    returns (r: Result<OIer, Error>)
    ensures r == DecodeOIer(row, contests, parseFloat)
  {
    if |row| < 4 {
      return Err(IndexError);
    }
    var name := row[2];
    var gender := ParseInt(row[3]);
    if gender.None? {
      return Err(ValueError);
    }
    if gender.value !in {-1, 0, 1} {
      return Err(AssertionError);
    }
    if |row| < 5 {
      return Err(IndexError);
    }
    var enrollMiddle := ParseInt(row[4]);
    if enrollMiddle.None? {
      return Err(ValueError);
    }
    var records := ParseRecords(row[|row| - 1], contests, parseFloat);
    if records.Err? {
      return Err(records.error);
    }
    r := Ok(OIer(name, gender.value, enrollMiddle.value, records.value));
  }
}
