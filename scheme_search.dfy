/**
 A model of the `/search` handler of the government scheme recommendation
 service (`search_schemes` in ap.py).

 The handler encodes the query text, asks the vector index for the five
 nearest neighbours, keeps only the candidate positions that are valid rows
 of the metadata table, looks those rows up in rank order and returns them;
 any exception on the way becomes an empty result with an error message.

 The sentence encoder and the index search are third-party numerics: here
 their combined effect is an input, `SearchOutcome`, which is either the
 rank-ordered candidate positions of the single query row or the message of
 the exception they raised. The metadata table is a `seq<Row>` over an
 opaque row type; it is loaded once and only ever read.
 */
module SchemeSearch {

  /** The number of nearest neighbours the handler asks the index for. */
  const TopK: nat := 5

  /** The message pandas gives when a positional list lookup is out of bounds. */
  const OutOfBoundsMessage: string := "positional indexers are out-of-bounds"

  datatype Option<T> = None | Some(value: T)

  /** What encoding the query and searching the index hand to the handler. */
  datatype SearchOutcome =
    | Found(positions: seq<int>)   // row 0 of the index's position matrix, best match first
    | Raised(message: string)      // the text of the exception raised by the encoder or the index

  /** The handler's JSON answer: `{"schemes": [...]}` or `{"schemes": [], "error": msg}`. */
  datatype Response<Row> =
    | Ok(schemes: seq<Row>)
    | Err(schemes: seq<Row>, msg: string)

  /** The guard of the list comprehension: `i >= 0 and i < len(metadata)`. */
  predicate InRange(i: int, n: nat) {
    0 <= i < n
  }

  // ---------------------------------------------------------------------------
  // The valid-index filter
  // ---------------------------------------------------------------------------

  /** The candidates that pass the bounds check, in their original rank order. */
  function ValidPositions(cands: seq<int>, n: nat): (r: seq<nat>)
    ensures |r| <= |cands|
    ensures forall j :: 0 <= j < |r| ==> r[j] < n
  {
    if cands == [] then []
    else if InRange(cands[0], n) then [cands[0] as nat] + ValidPositions(cands[1..], n)
    else ValidPositions(cands[1..], n)
  }

  /**
   The slots (ranks) of `cands`, from `from` on, whose candidate is in range,
   in increasing order. This is the reference description of the filter:
   which ranks survive, independently of how the surviving values are built.
   */
  function SlotsFrom(cands: seq<int>, n: nat, from: nat): (s: seq<nat>)
    requires from <= |cands|
    ensures forall j :: 0 <= j < |s| ==> from <= s[j] < |cands| && InRange(cands[s[j]], n)
    ensures forall j1, j2 :: 0 <= j1 < j2 < |s| ==> s[j1] < s[j2]
    ensures forall k :: from <= k < |cands| && InRange(cands[k], n) ==> k in s
    decreases |cands| - from
  {
    if from == |cands| then []
    else if InRange(cands[from], n) then [from] + SlotsFrom(cands, n, from + 1)
    else SlotsFrom(cands, n, from + 1)
  }

  /** The surviving slots of the whole candidate list. */
  function Slots(cands: seq<int>, n: nat): seq<nat> {
    SlotsFrom(cands, n, 0)
  }

  lemma {:induction false} ValidPositionsFromSlots(cands: seq<int>, n: nat, from: nat)
    requires from <= |cands|
    ensures |ValidPositions(cands[from..], n)| == |SlotsFrom(cands, n, from)|
    ensures forall j :: 0 <= j < |SlotsFrom(cands, n, from)| ==>
              ValidPositions(cands[from..], n)[j] == cands[SlotsFrom(cands, n, from)[j]]
    decreases |cands| - from
  {
    if from < |cands| {
      var tail := cands[from + 1..];
      assert cands[from..] == [cands[from]] + tail;
      ValidPositionsFromSlots(cands, n, from + 1);
      if InRange(cands[from], n) {
        ConsSurvivor(cands, from, ValidPositions(tail, n), SlotsFrom(cands, n, from + 1));
      }
    }
  }

  /** One in-range candidate in front of the rest keeps survivors and slots aligned. */
  lemma ConsSurvivor(cands: seq<int>, from: nat, rest: seq<nat>, restSlots: seq<nat>)
    requires from < |cands| && 0 <= cands[from]
    requires |rest| == |restSlots|
    requires forall j :: 0 <= j < |restSlots| ==> restSlots[j] < |cands| && rest[j] == cands[restSlots[j]]
    ensures var r, s := [cands[from] as nat] + rest, [from] + restSlots;
            forall j :: 0 <= j < |s| ==> s[j] < |cands| && r[j] == cands[s[j]]
  {
    var r, s := [cands[from] as nat] + rest, [from] + restSlots;
    forall j | 0 <= j < |s| ensures s[j] < |cands| && r[j] == cands[s[j]] {
      if j > 0 {
        assert r[j] == rest[j - 1] && s[j] == restSlots[j - 1];
      }
    }
  }

  /**
   The filter keeps exactly the in-range candidates, in their original order:
   the j-th survivor is the candidate at the j-th surviving slot, the slots
   increase strictly, and every in-range slot is among them.
   */
  lemma FilterSelectsInRangeSlots(cands: seq<int>, n: nat)
    ensures |ValidPositions(cands, n)| == |Slots(cands, n)|
    ensures forall j :: 0 <= j < |Slots(cands, n)| ==>
              ValidPositions(cands, n)[j] == cands[Slots(cands, n)[j]]
    ensures forall j1, j2 :: 0 <= j1 < j2 < |Slots(cands, n)| ==> Slots(cands, n)[j1] < Slots(cands, n)[j2]
    ensures forall k :: 0 <= k < |cands| ==> (k in Slots(cands, n) <==> InRange(cands[k], n))
  {
    assert cands[0..] == cands;
    ValidPositionsFromSlots(cands, n, 0);
  }

  /** Only candidates survive, and every in-range candidate value survives. */
  lemma {:induction false} FilterMembership(cands: seq<int>, n: nat)
    ensures forall j :: 0 <= j < |ValidPositions(cands, n)| ==> ValidPositions(cands, n)[j] in cands
    ensures forall k :: 0 <= k < |cands| && InRange(cands[k], n) ==> cands[k] in ValidPositions(cands, n)
  {
    if cands != [] {
      FilterMembership(cands[1..], n);
      var r, rest := ValidPositions(cands, n), ValidPositions(cands[1..], n);
      forall j | 0 <= j < |r| ensures r[j] in cands {
        if InRange(cands[0], n) && j > 0 {
          assert r[j] == rest[j - 1];
        }
      }
      forall k | 0 <= k < |cands| && InRange(cands[k], n) ensures cands[k] in r {
        if k > 0 {
          assert cands[k] == cands[1..][k - 1];
        }
      }
    }
  }

  /** Filtering a concatenation filters each part: the check looks at one candidate at a time. */
  lemma {:induction false} FilterDistributes(a: seq<int>, b: seq<int>, n: nat)
    ensures ValidPositions(a + b, n) == ValidPositions(a, n) + ValidPositions(b, n)
  {
    if a != [] {
      assert (a + b)[1..] == a[1..] + b;
      FilterDistributes(a[1..], b, n);
    } else {
      assert a + b == b;
    }
  }

  /** One unfolding of the filter on a candidate list written as head and tail. */
  lemma FilterStep(i: int, tail: seq<int>, n: nat)
    ensures ValidPositions([i] + tail, n) ==
            (if InRange(i, n) then [i as nat] else []) + ValidPositions(tail, n)
  {
    assert ([i] + tail)[1..] == tail;
  }

  /** When every candidate is in range, nothing is dropped and nothing is reordered. */
  lemma {:induction false} FilterKeepsAllInRange(cands: seq<int>, n: nat)
    requires forall j :: 0 <= j < |cands| ==> InRange(cands[j], n)
    ensures ValidPositions(cands, n) == cands
  {
    if cands != [] {
      FilterKeepsAllInRange(cands[1..], n);
    }
  }

  /** Filtering twice is filtering once. */
  lemma FilterIdempotent(cands: seq<int>, n: nat)
    ensures ValidPositions(ValidPositions(cands, n), n) == ValidPositions(cands, n)
  {
    var r := ValidPositions(cands, n);
    FilterKeepsAllInRange(r, n);
  }

  // ---------------------------------------------------------------------------
  // The row lookup
  // ---------------------------------------------------------------------------

  /**
   `metadata.iloc[positions]` with a list of positions, as pandas defines it:
   a position p with -|rows| <= p < |rows| selects one row (a negative p counts
   from the end), any other position makes the whole lookup raise. The
   selected rows come in the order of the list, repeats included.
   */
  function ILoc<Row>(rows: seq<Row>, ps: seq<int>): (r: Option<seq<Row>>)
    ensures r.Some? <==> forall j :: 0 <= j < |ps| ==> -|rows| <= ps[j] < |rows|
    ensures r.Some? ==> |r.value| == |ps|
    ensures r.Some? ==> forall j :: 0 <= j < |ps| && 0 <= ps[j] < |rows| ==> r.value[j] == rows[ps[j]]
    ensures r.Some? ==> forall j :: 0 <= j < |ps| && -|rows| <= ps[j] < 0 ==> r.value[j] == rows[|rows| + ps[j]]
  {
    if ps == [] then Some([])
    else if !(-|rows| <= ps[0] < |rows|) then None
    else
      var row := if ps[0] >= 0 then rows[ps[0]] else rows[|rows| + ps[0]];
      match ILoc(rows, ps[1..])
      case None => None
      case Some(rest) => Some([row] + rest)
  }

  /**
   Without the `i >= 0` half of the filter, the index's "no match" sentinel
   -1 would not fail the lookup: it would silently select the last row.
   */
  lemma SentinelWouldSelectLastRow<Row>(rows: seq<Row>)
    requires rows != []
    ensures ILoc(rows, [-1]) == Some([rows[|rows| - 1]])
  {
    var r := ILoc(rows, [-1]);
    assert r.Some? && |r.value| == 1;
    assert r.value[0] == rows[|rows| - 1];
    assert r.value == [rows[|rows| - 1]];
  }

  // ---------------------------------------------------------------------------
  // The handler
  // ---------------------------------------------------------------------------

  /**
   `search_schemes`: the outcome of encoding and searching, filtered, looked
   up and wrapped into the handler's answer.
   */
  function SearchSchemes<Row>(search: SearchOutcome, metadata: seq<Row>): (r: Response<Row>)
    // only an exception from encoding or searching becomes an error answer, with its message
    ensures r.Err? <==> search.Raised?
    ensures r.Err? ==> r.schemes == [] && r.msg == search.message
    // one scheme per surviving position, never more than there were candidates
    ensures search.Found? ==>
              |r.schemes| == |ValidPositions(search.positions, |metadata|)| <= |search.positions|
    ensures search.Found? && |search.positions| == TopK ==> |r.schemes| <= TopK
    // scheme j is the metadata row at the j-th surviving position
    ensures search.Found? ==>
              forall j :: 0 <= j < |r.schemes| ==>
                r.schemes[j] == metadata[ValidPositions(search.positions, |metadata|)[j]]
  {
    match search
    case Raised(message) => Err([], message)
    case Found(cands) =>
      var valid := ValidPositions(cands, |metadata|);
      if valid == [] then Ok([])
      else
        match ILoc(metadata, valid)
        case Some(schemes) => Ok(schemes)
        case None => Err([], OutOfBoundsMessage)
  }

  /**
   The answer in terms of the candidates themselves: scheme j is the row at
   the candidate of the j-th in-range slot, so no valid candidate is lost,
   none is reordered, and a repeated candidate gives a repeated row.
   */
  lemma SchemesFollowRankOrder<Row>(cands: seq<int>, metadata: seq<Row>)
    ensures var r := SearchSchemes(Found(cands), metadata);
            var slots := Slots(cands, |metadata|);
            && r.Ok?
            && |r.schemes| == |slots|
            && (forall j :: 0 <= j < |slots| ==> 0 <= cands[slots[j]] < |metadata| && r.schemes[j] == metadata[cands[slots[j]]])
            && (forall j1, j2 :: 0 <= j1 < j2 < |slots| ==> slots[j1] < slots[j2])
            && (forall k :: 0 <= k < |cands| ==> (k in slots <==> InRange(cands[k], |metadata|)))
  {
    FilterSelectsInRangeSlots(cands, |metadata|);
  }

  /**
   No de-duplication: a valid position that the index returns at two ranks
   yields its row at two places of the answer, the earlier rank first.
   */
  lemma RepeatedPositionRepeatedRow<Row>(cands: seq<int>, metadata: seq<Row>, k1: nat, k2: nat)
    requires k1 < k2 < |cands| && cands[k1] == cands[k2] && InRange(cands[k1], |metadata|)
    ensures var r := SearchSchemes(Found(cands), metadata);
            exists j1, j2 :: 0 <= j1 < j2 < |r.schemes| && r.schemes[j1] == metadata[cands[k1]] && r.schemes[j2] == metadata[cands[k1]]
  {
    SchemesFollowRankOrder(cands, metadata);
    var r := SearchSchemes(Found(cands), metadata);
    var slots := Slots(cands, |metadata|);
    assert k1 in slots && k2 in slots;
    var j1 :| 0 <= j1 < |slots| && slots[j1] == k1;
    var j2 :| 0 <= j2 < |slots| && slots[j2] == k2;
    assert r.schemes[j1] == metadata[cands[k1]] && r.schemes[j2] == metadata[cands[k1]];
  }

  /**
   The scheme list is empty exactly when no candidate is a valid row, and
   that answer is a success, not an error.
   */
  lemma EmptyAnswerIffNoValidCandidate<Row>(cands: seq<int>, metadata: seq<Row>)
    ensures var r := SearchSchemes(Found(cands), metadata);
            && r.Ok?
            && (r.schemes == [] <==> forall k :: 0 <= k < |cands| ==> !InRange(cands[k], |metadata|))
  {
    FilterSelectsInRangeSlots(cands, |metadata|);
    var slots := Slots(cands, |metadata|);
    if slots != [] {
      assert InRange(cands[slots[0]], |metadata|);
    }
  }

  /** When every candidate is a valid row, the answer is exactly those rows, in rank order. */
  lemma AllValidCandidatesReturned<Row>(cands: seq<int>, metadata: seq<Row>)
    requires forall j :: 0 <= j < |cands| ==> InRange(cands[j], |metadata|)
    ensures ILoc(metadata, cands).Some?
    ensures SearchSchemes(Found(cands), metadata) == Ok(ILoc(metadata, cands).value)
  {
    FilterKeepsAllInRange(cands, |metadata|);
  }

  /** Candidates [1, -1, 0, 3, 2] against three rows keep [1, 0, 2]. */
  lemma WorkedExampleFilter()
    ensures ValidPositions([1, -1, 0, 3, 2], 3) == [1, 0, 2]
  {
    assert ValidPositions([2], 3) == [2] by {
      FilterStep(2, [], 3);
      assert [2] == [2] + [];
    }
    assert ValidPositions([3, 2], 3) == [2] by {
      FilterStep(3, [2], 3);
      assert [3, 2] == [3] + [2];
    }
    assert ValidPositions([0, 3, 2], 3) == [0, 2] by {
      FilterStep(0, [3, 2], 3);
      assert [0, 3, 2] == [0] + [3, 2];
    }
    assert ValidPositions([-1, 0, 3, 2], 3) == [0, 2] by {
      FilterStep(-1, [0, 3, 2], 3);
      assert [-1, 0, 3, 2] == [-1] + [0, 3, 2];
    }
    FilterStep(1, [-1, 0, 3, 2], 3);
    assert [1, -1, 0, 3, 2] == [1] + [-1, 0, 3, 2];
  }

  /** Rows [A, B, C] and candidates [1, -1, 0, 3, 2] give [B, A, C]. */
  lemma WorkedExample<Row>(a: Row, b: Row, c: Row)
    ensures SearchSchemes(Found([1, -1, 0, 3, 2]), [a, b, c]) == Ok([b, a, c])
  {
    WorkedExampleFilter();
    var r := SearchSchemes(Found([1, -1, 0, 3, 2]), [a, b, c]);
    assert r.schemes[0] == b && r.schemes[1] == a && r.schemes[2] == c;
    assert r.schemes == [b, a, c];
  }

  /** Example: candidates [1, 1, -1, -1, -1] against rows [A, B] give [B, B]. */
  lemma NoDeduplicationExample<Row>(a: Row, b: Row)
    ensures SearchSchemes(Found([1, 1, -1, -1, -1]), [a, b]) == Ok([b, b])
  {
    var cands := [1, 1, -1, -1, -1];
    FilterStep(-1, [], 2);
    FilterStep(-1, [-1], 2);
    FilterStep(-1, [-1, -1], 2);
    FilterStep(1, [-1, -1, -1], 2);
    FilterStep(1, [1, -1, -1, -1], 2);
    var r := SearchSchemes(Found(cands), [a, b]);
    assert r.schemes[0] == b && r.schemes[1] == b;
    assert r.schemes == [b, b];
  }
}
