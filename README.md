# Scheme search: the `/search` handler as a Dafny model

The government scheme recommendation service answers a free-text query with
the catalogue schemes most similar to it. Its one piece of original logic is
the post-processing in `search_schemes` (ap.py). The query is embedded and the
vector index returns five candidate row positions, best match first. The
handler keeps the positions that are valid rows of the metadata table. It then
looks those rows up in rank order and answers `{"schemes": [...]}`. Any
exception on the way becomes `{"schemes": [], "error": message}`.

`scheme_search.dfy` holds one module, `SchemeSearch`:

- `SearchOutcome` stands for the encoder and the index together: either the
  candidate positions of the single query row (`Found`) or the message of the
  exception they raised (`Raised`).
- The metadata table is a `seq<Row>` over an opaque row type `Row`. It is a
  parameter that is only read, as the table in the service is loaded once and
  never changed.
- `Response` is the handler's answer: `Ok(schemes)` or `Err(schemes, msg)`,
  where an `Err` always carries no schemes.
- `ValidPositions` is the list comprehension with its bounds guard. `Slots` /
  `SlotsFrom` give an independent description of which ranks survive.
- `ILoc` is the positional list lookup `metadata.iloc[positions]` as pandas
  defines it. A position in `[-n, n)` selects a row, and a negative one counts
  from the end. Any other position makes the whole lookup raise.
- `SearchSchemes` is the handler.

## Model

| member | source | states |
|---|---|---|
| `SchemeSearch.ValidPositions` | ap.py:63-66 | every survivor is a row index: non-negative (a `nat`) and below `len(metadata)`; there are never more survivors than candidates |
| `SchemeSearch.FilterMembership` | ap.py:63-66 | only candidates survive, and every in-range candidate is among the survivors |
| `SchemeSearch.FilterSelectsInRangeSlots` | ap.py:63-66 | the filter is an order-preserving selection: survivor j is the candidate at the j-th surviving rank, surviving ranks strictly increase, and a rank survives exactly when its candidate is in range |
| `SchemeSearch.FilterDistributes` | ap.py:63-66 | the guard looks at one candidate at a time: filtering a concatenation is concatenating the filtered parts |
| `SchemeSearch.FilterKeepsAllInRange` | ap.py:63-66 | when every candidate is a valid row, the filter returns the candidates unchanged |
| `SchemeSearch.FilterIdempotent` | ap.py:63-66 | filtering the survivors again changes nothing |
| `SchemeSearch.ILoc` | ap.py:75 | the list lookup succeeds exactly when every position lies in `[-n, n)`; it then returns one row per position, in list order with repeats, a negative position p selecting row `n + p` |
| `SchemeSearch.SentinelWouldSelectLastRow` | ap.py:64-65 | without the `i >= 0` guard, the index's "no match" sentinel -1 would not fail the lookup but would silently select the last row |
| `SchemeSearch.SearchSchemes` | ap.py:48-86 | an error answer occurs exactly when encoding or searching raised, and then carries no schemes and the exception's message; otherwise scheme j is the metadata row at the j-th valid position, there are as many schemes as valid positions, at most as many as candidates, and at most 5 for the five-slot search |
| `SchemeSearch.SchemesFollowRankOrder` | ap.py:63-75 | stated on the candidates alone: the answer is a success whose scheme j is the row at the candidate of the j-th in-range rank, the in-range ranks strictly increase, and a rank is among them exactly when its candidate is in range; so no valid candidate is dropped and none is reordered |
| `SchemeSearch.RepeatedPositionRepeatedRow` | ap.py:63-75 | for every candidate list: a valid position returned at two ranks yields its row at two places of the answer, the earlier rank first (no de-duplication) |
| `SchemeSearch.EmptyAnswerIffNoValidCandidate` | ap.py:69-72 | the scheme list is empty exactly when no candidate is a valid row, and that answer is a success without an error |
| `SchemeSearch.AllValidCandidatesReturned` | ap.py:63-79 | when all candidates are valid rows, the lookup cannot fail and the answer is exactly those rows in rank order |
| `SchemeSearch.WorkedExampleFilter` | ap.py:63-66 | against three rows, candidates [1, -1, 0, 3, 2] keep [1, 0, 2] |
| `SchemeSearch.WorkedExample` | ap.py:63-79 | rows [A, B, C] with candidates [1, -1, 0, 3, 2] give [B, A, C] |
| `SchemeSearch.NoDeduplicationExample` | ap.py:63-75 | example: candidates [1, 1, -1, -1, -1] against rows [A, B] give [B, B] |

Determinism needs no lemma: `SearchSchemes` is a function of the search
outcome and the table, so the same candidates and the same table always give
the same ordered answer.

The lookup-failure branch of the handler is kept in `SearchSchemes`, with
pandas' out-of-bounds message. The contracts of `ValidPositions` and `ILoc`
show that this branch is never taken: every surviving position is a valid row.

## Left out

- The web application, its CORS middleware and the root endpoint (ap.py:12-23, ap.py:90-94): framework configuration with no logic.
- Resolving paths and loading the index, the CSV and the embedding model (ap.py:25-39): file I/O and third-party calls done once at start-up.
- `model.encode` and `index.search` (ap.py:57, ap.py:60): third-party floating-point numerics. Their effect is the `SearchOutcome` input, a position list or an exception message.
- The distances returned by the search (ap.py:60): floating point, never used by the handler.
- The request schema (ap.py:43-44) and `to_dict(orient="records")` (ap.py:75): library serialisation. A row is the opaque type `Row`.
- The exact text of exceptions raised by the encoder or the index: it is carried through unchanged as `Raised(message)`.
