/** The `submissions` table and its six prepared statements. The table is a
    sequence of rows in rowid order together with the AUTOINCREMENT counter
    that SQLite keeps for it in `sqlite_sequence`. */
module Database {
  import opened Common
  import SqlLike

  /** The largest rowid SQLite can allocate (a signed 64-bit integer). */
  const MaxRowId: int := 0x7FFF_FFFF_FFFF_FFFF

  /** One row of `submissions`. The seven NOT NULL text columns are plain
      strings; the nullable ones are options. `createdAt` is the value the
      clock gave `CURRENT_TIMESTAMP` when the row was inserted. */
  datatype Submission = Submission(
    id: int,
    secretCode: string,
    photoPath: string,
    artistName: string,
    title: string,
    date: string,
    medium: string,
    dimensions: string,
    editionSize: Option<string>,
    provenance: Option<string>,
    exhibitionHistory: Option<string>,
    purchasePrice: Option<string>,
    appraisal: Option<string>,
    estimateLow: Option<string>,
    estimateHigh: Option<string>,
    createdAt: int)

  /** The eleven named parameters of `insertSubmission`, as bound (NULL is
      `None`). */
  datatype InsertParams = InsertParams(
    secretCode: Option<string>,
    photoPath: Option<string>,
    artistName: Option<string>,
    title: Option<string>,
    date: Option<string>,
    medium: Option<string>,
    dimensions: Option<string>,
    editionSize: Option<string>,
    provenance: Option<string>,
    exhibitionHistory: Option<string>,
    purchasePrice: Option<string>)

  /** SQLITE_FULL from AUTOINCREMENT, a NOT NULL failure, a UNIQUE failure. */
  datatype DbError = DatabaseFull | NotNullViolation | UniqueViolation

  predicate HasRequired(p: InsertParams)
  {
    && p.secretCode.Some? && p.photoPath.Some? && p.artistName.Some? && p.title.Some?
    && p.date.Some? && p.medium.Some? && p.dimensions.Some?
  }

  predicate CodeTaken(rows: seq<Submission>, code: string)
  {
    exists i :: 0 <= i < |rows| && rows[i].secretCode == code
  }

  predicate IdPresent(rows: seq<Submission>, id: int)
  {
    exists i :: 0 <= i < |rows| && rows[i].id == id
  }

  /** The table invariant: rowids are positive, strictly increasing in
      insertion order and never above the AUTOINCREMENT counter, which is
      itself a valid rowid; secret codes are pairwise distinct. */
  ghost predicate WellFormed(rows: seq<Submission>, lastId: int)
    ensures WellFormed(rows, lastId) ==>
      forall i, j :: 0 <= i < |rows| && 0 <= j < |rows| && i != j ==>
        rows[i].id != rows[j].id && rows[i].secretCode != rows[j].secretCode
  {
    && 0 <= lastId <= MaxRowId
    && (forall i :: 0 <= i < |rows| ==> 0 < rows[i].id <= lastId)
    && (forall i, j :: 0 <= i < j < |rows| ==> rows[i].id < rows[j].id)
    && (forall i, j :: 0 <= i < j < |rows| ==> rows[i].secretCode != rows[j].secretCode)
  }

  /** The constraint an insert would violate, if any: the rowid space is
      exhausted, a NOT NULL column is bound to NULL, or the code is taken. */
  function Violation(rows: seq<Submission>, lastId: int, p: InsertParams): (v: Option<DbError>)
    ensures v.None? <==> lastId < MaxRowId && HasRequired(p) && !CodeTaken(rows, p.secretCode.value)
  {
    if lastId >= MaxRowId then Some(DatabaseFull)
    else if !HasRequired(p) then Some(NotNullViolation)
    else if CodeTaken(rows, p.secretCode.value) then Some(UniqueViolation)
    else None
  }

  /** The row an insert adds: the bound values, the appraisal columns left
      at their NULL default, `created_at` from the clock. */
  function NewRow(id: int, p: InsertParams, now: int): (s: Submission)
    requires HasRequired(p)
    ensures s.appraisal.None? && s.estimateLow.None? && s.estimateHigh.None?
    ensures s.id == id && s.createdAt == now && Some(s.secretCode) == p.secretCode
  {
    Submission(id, p.secretCode.value, p.photoPath.value, p.artistName.value, p.title.value,
               p.date.value, p.medium.value, p.dimensions.value,
               p.editionSize, p.provenance, p.exhibitionHistory, p.purchasePrice,
               None, None, None, now)
  }

  /** `getByCode`: the row with that secret code. */
  function FindByCode(rows: seq<Submission>, code: string): (r: Option<Submission>)
    ensures r.None? <==> !CodeTaken(rows, code)
    ensures r.Some? ==> r.value in rows && r.value.secretCode == code
  {
    if rows == [] then None
    else if rows[0].secretCode == code then Some(rows[0])
    else
      assert CodeTaken(rows, code) ==> CodeTaken(rows[1..], code) by {
        if CodeTaken(rows, code) {
          var i :| 0 <= i < |rows| && rows[i].secretCode == code;
          assert rows[1..][i - 1].secretCode == code;
        }
      }
      FindByCode(rows[1..], code)
  }

  /** `getById`: the row with that rowid. */
  function FindById(rows: seq<Submission>, id: int): (r: Option<Submission>)
    ensures r.None? <==> !IdPresent(rows, id)
    ensures r.Some? ==> r.value in rows && r.value.id == id
  {
    if rows == [] then None
    else if rows[0].id == id then Some(rows[0])
    else
      assert IdPresent(rows, id) ==> IdPresent(rows[1..], id) by {
        if IdPresent(rows, id) {
          var i :| 0 <= i < |rows| && rows[i].id == id;
          assert rows[1..][i - 1].id == id;
        }
      }
      FindById(rows[1..], id)
  }

  /** A row with the three appraisal columns overwritten. */
  function Appraised(s: Submission, appraisal: Option<string>, low: Option<string>, high: Option<string>): Submission
  {
    s.(appraisal := appraisal, estimateLow := low, estimateHigh := high)
  }

  /** `updateAppraisal`: every row with that rowid gets the three appraisal
      columns; every other row, and every other column, keeps its value. */
  function SetAppraisal(rows: seq<Submission>, id: int, appraisal: Option<string>,
                        low: Option<string>, high: Option<string>): (r: seq<Submission>)
    ensures |r| == |rows|
    ensures forall i :: 0 <= i < |rows| ==>
      r[i] == if rows[i].id == id then Appraised(rows[i], appraisal, low, high) else rows[i]
  {
    if rows == [] then []
    else
      [if rows[0].id == id then Appraised(rows[0], appraisal, low, high) else rows[0]]
      + SetAppraisal(rows[1..], id, appraisal, low, high)
  }

  /** `artist_name LIKE '%' || q || '%'`. */
  predicate ArtistMatches(s: Submission, q: string)
  {
    SqlLike.Like(s.artistName, "%" + q + "%")
  }

  /** The WHERE clause of `searchByArtist`: each matching row as often as it
      occurs, and no other row. */
  function MatchingArtist(rows: seq<Submission>, q: string): (r: seq<Submission>)
    ensures forall s :: multiset(r)[s] == if ArtistMatches(s, q) then multiset(rows)[s] else 0
  {
    if rows == [] then []
    else
      assert rows == [rows[0]] + rows[1..];
      (if ArtistMatches(rows[0], q) then [rows[0]] else []) + MatchingArtist(rows[1..], q)
  }

  /** `ORDER BY created_at DESC`. */
  ghost predicate NewestFirst(s: seq<Submission>)
  {
    forall i, j :: 0 <= i < j < |s| ==> s[i].createdAt >= s[j].createdAt
  }

  function InsertByTime(x: Submission, s: seq<Submission>): (r: seq<Submission>)
    requires NewestFirst(s)
    ensures NewestFirst(r)
    ensures multiset(r) == multiset(s) + multiset{x}
  {
    if s == [] || x.createdAt >= s[0].createdAt then
      assert forall k :: 0 <= k < |s| ==> x.createdAt >= s[k].createdAt;
      ConsNewestFirst(x, s);
      assert multiset([x] + s) == multiset{x} + multiset(s);
      [x] + s
    else
      var t := InsertByTime(x, s[1..]);
      assert s == [s[0]] + s[1..];
      assert multiset(s) == multiset{s[0]} + multiset(s[1..]);
      assert NewestFirst(s[1..]);
      NoLaterThanHead(s[0], x, s[1..], t);
      ConsNewestFirst(s[0], t);
      assert multiset([s[0]] + t) == multiset{s[0]} + multiset(t);
      [s[0]] + t
  }

  /** Putting a row at least as new as all of `t` in
      front of `t` keeps the order. */
  lemma ConsNewestFirst(h: Submission, t: seq<Submission>)
    requires NewestFirst(t)
    requires forall k :: 0 <= k < |t| ==> h.createdAt >= t[k].createdAt
    ensures NewestFirst([h] + t)
  {
    var r := [h] + t;
    forall i, j | 0 <= i < j < |r| ensures r[i].createdAt >= r[j].createdAt {
      assert r[j] == t[j - 1];
      if i > 0 {
        assert r[i] == t[i - 1];
      }
    }
  }

  /** Every element of a permutation of `rest + [x]` is no newer than `head`
      when `x` and all of `rest` are no newer. */
  lemma NoLaterThanHead(head: Submission, x: Submission, rest: seq<Submission>, t: seq<Submission>)
    requires head.createdAt >= x.createdAt
    requires forall k :: 0 <= k < |rest| ==> head.createdAt >= rest[k].createdAt
    requires multiset(t) == multiset(rest) + multiset{x}
    ensures forall k :: 0 <= k < |t| ==> head.createdAt >= t[k].createdAt
  {
    forall k | 0 <= k < |t| ensures head.createdAt >= t[k].createdAt {
      var y := t[k];
      assert y in multiset(t);
      if y != x {
        assert y in multiset(rest);
        var m :| 0 <= m < |rest| && rest[m] == y;
      }
    }
  }

  /** The rows in an order that `ORDER BY created_at DESC` admits. */
  function SortNewestFirst(s: seq<Submission>): (r: seq<Submission>)
    ensures NewestFirst(r)
    ensures multiset(r) == multiset(s)
  {
    if s == [] then []
    else
      assert s == [s[0]] + s[1..];
      InsertByTime(s[0], SortNewestFirst(s[1..]))
  }

  class Store {
    var rows: seq<Submission>
    /** The table's entry in `sqlite_sequence`: the largest rowid ever used. */
    var lastId: int

    ghost predicate Valid()
      reads this
    {
      WellFormed(rows, lastId)
    }

    /** `CREATE TABLE IF NOT EXISTS` on a fresh database. */
    constructor ()
      ensures Valid() && rows == [] && lastId == 0
    {
      rows := [];
      lastId := 0;
    }

    /** `insertSubmission.run(p)`, with `now` the value of CURRENT_TIMESTAMP.
        A failing statement is rolled back, counter included. */
    method Insert(p: InsertParams, now: int) returns (r: Result<int, DbError>)
      requires Valid()
      modifies this
      ensures Valid()
      ensures r.Failure? <==> Violation(old(rows), old(lastId), p).Some?
      ensures r.Failure? ==> r.error == Violation(old(rows), old(lastId), p).value
      ensures r.Failure? ==> rows == old(rows) && lastId == old(lastId)
      ensures r.Success? ==> r.value == old(lastId) + 1 && lastId == r.value
      ensures r.Success? ==> forall i :: 0 <= i < |old(rows)| ==> old(rows)[i].id < r.value
      ensures r.Success? ==> rows == old(rows) + [NewRow(r.value, p, now)]
    {
      var v := Violation(rows, lastId, p);
      if v.Some? {
        return Failure(v.value);
      }
      var id := lastId + 1;
      var row := NewRow(id, p, now);
      assert forall i :: 0 <= i < |rows| ==> rows[i].secretCode != row.secretCode;
      rows := rows + [row];
      lastId := id;
      r := Success(id);
    }

    /** `getByCode.get(code)`. */
    method GetByCode(code: string) returns (r: Option<Submission>)
      requires Valid()
      ensures r.None? <==> !CodeTaken(rows, code)
      ensures forall i :: 0 <= i < |rows| && rows[i].secretCode == code ==> r == Some(rows[i])
    {
      r := FindByCode(rows, code);
      CodeDetermines(rows, lastId, r);
    }

    /** `getById.get(id)`. */
    method GetById(id: int) returns (r: Option<Submission>)
      requires Valid()
      ensures r.None? <==> !IdPresent(rows, id)
      ensures forall i :: 0 <= i < |rows| && rows[i].id == id ==> r == Some(rows[i])
    {
      r := FindById(rows, id);
      IdDetermines(rows, lastId, r);
    }

    /** `getAll.all()`. */
    method GetAll() returns (r: seq<Submission>)
      ensures multiset(r) == multiset(rows)
      ensures NewestFirst(r)
    {
      r := SortNewestFirst(rows);
    }

    /** `searchByArtist.all(q)`. */
    method SearchByArtist(q: string) returns (r: seq<Submission>)
      ensures forall s :: multiset(r)[s] == if ArtistMatches(s, q) then multiset(rows)[s] else 0
      ensures NewestFirst(r)
    {
      r := SortNewestFirst(MatchingArtist(rows, q));
    }

    /** `updateAppraisal.run(appraisal, low, high, id)`; `changes` is the
        number of rows the statement touched. */
    method UpdateAppraisal(appraisal: Option<string>, low: Option<string>, high: Option<string>, id: int)
      returns (changes: nat)
      requires Valid()
      modifies this
      ensures Valid() && lastId == old(lastId)
      ensures rows == SetAppraisal(old(rows), id, appraisal, low, high)
      ensures changes == if IdPresent(old(rows), id) then 1 else 0
    {
      SetAppraisalKeepsKeys(rows, id, appraisal, low, high);
      changes := if FindById(rows, id).Some? then 1 else 0;
      rows := SetAppraisal(rows, id, appraisal, low, high);
    }
  }

  /** Secret codes are a key: a row found by code is the only row with it. */
  lemma CodeDetermines(rows: seq<Submission>, lastId: int, r: Option<Submission>)
    requires WellFormed(rows, lastId)
    requires r.Some? ==> r.value in rows
    ensures forall i :: 0 <= i < |rows| && r.Some? && rows[i].secretCode == r.value.secretCode ==> rows[i] == r.value
  {
    if r.Some? {
      var k :| 0 <= k < |rows| && rows[k] == r.value;
      forall i | 0 <= i < |rows| && rows[i].secretCode == r.value.secretCode ensures rows[i] == r.value {
        assert !(i < k) && !(k < i);
      }
    }
  }

  /** Rowids are a key. */
  lemma IdDetermines(rows: seq<Submission>, lastId: int, r: Option<Submission>)
    requires WellFormed(rows, lastId)
    requires r.Some? ==> r.value in rows
    ensures forall i :: 0 <= i < |rows| && r.Some? && rows[i].id == r.value.id ==> rows[i] == r.value
  {
    if r.Some? {
      var k :| 0 <= k < |rows| && rows[k] == r.value;
      forall i | 0 <= i < |rows| && rows[i].id == r.value.id ensures rows[i] == r.value {
        assert !(i < k) && !(k < i);
      }
    }
  }

  /** An appraisal update keeps every rowid and secret code where it was,
      so it keeps the table invariant. */
  lemma SetAppraisalKeepsKeys(rows: seq<Submission>, id: int, appraisal: Option<string>,
                              low: Option<string>, high: Option<string>)
    ensures var r := SetAppraisal(rows, id, appraisal, low, high);
      forall i :: 0 <= i < |rows| ==> r[i].id == rows[i].id && r[i].secretCode == rows[i].secretCode
    ensures forall lastId :: WellFormed(rows, lastId) ==> WellFormed(SetAppraisal(rows, id, appraisal, low, high), lastId)
  {
    var r := SetAppraisal(rows, id, appraisal, low, high);
    assert forall i :: 0 <= i < |rows| ==> r[i].id == rows[i].id && r[i].secretCode == rows[i].secretCode;
  }

  /** Round trip: after a successful insert with code C, looking C up gives
      the new row, carrying the bound values and NULL appraisal columns. */
  lemma {:induction false} InsertThenFindByCode(rows: seq<Submission>, id: int, p: InsertParams, now: int)
    requires HasRequired(p) && !CodeTaken(rows, p.secretCode.value)
    ensures var found := FindByCode(rows + [NewRow(id, p, now)], p.secretCode.value);
      && found == Some(NewRow(id, p, now))
      && found.value.id == id && found.value.createdAt == now
      && found.value.photoPath == p.photoPath.value
      && found.value.artistName == p.artistName.value && found.value.title == p.title.value
      && found.value.date == p.date.value && found.value.medium == p.medium.value
      && found.value.dimensions == p.dimensions.value
      && found.value.editionSize == p.editionSize && found.value.provenance == p.provenance
      && found.value.exhibitionHistory == p.exhibitionHistory
      && found.value.purchasePrice == p.purchasePrice
      && found.value.appraisal.None? && found.value.estimateLow.None? && found.value.estimateHigh.None?
  {
    var code := p.secretCode.value;
    var row := NewRow(id, p, now);
    if rows != [] {
      assert rows[0].secretCode != code;
      assert (rows + [row])[1..] == rows[1..] + [row];
      assert !CodeTaken(rows[1..], code) by {
        forall i | 0 <= i < |rows[1..]| ensures rows[1..][i].secretCode != code {
          assert rows[1..][i] == rows[i + 1];
        }
      }
      InsertThenFindByCode(rows[1..], id, p, now);
    }
  }

  /** A successful insert keeps the table invariant, with the counter at the
      new rowid. */
  lemma InsertKeepsWellFormed(rows: seq<Submission>, lastId: int, p: InsertParams, now: int)
    requires WellFormed(rows, lastId) && Violation(rows, lastId, p).None?
    ensures WellFormed(rows + [NewRow(lastId + 1, p, now)], lastId + 1)
  {
    var row := NewRow(lastId + 1, p, now);
    assert forall i :: 0 <= i < |rows| ==> rows[i].secretCode != row.secretCode;
  }

  /** Updating a rowid no row has leaves the table as it was. */
  lemma SetAppraisalAbsent(rows: seq<Submission>, id: int, appraisal: Option<string>,
                           low: Option<string>, high: Option<string>)
    requires !IdPresent(rows, id)
    ensures SetAppraisal(rows, id, appraisal, low, high) == rows
  {
  }

  /** Two appraisals of the same row: only the second is visible. */
  lemma SetAppraisalLastWriteWins(rows: seq<Submission>, id: int,
                                  a1: Option<string>, l1: Option<string>, h1: Option<string>,
                                  a2: Option<string>, l2: Option<string>, h2: Option<string>)
    ensures SetAppraisal(SetAppraisal(rows, id, a1, l1, h1), id, a2, l2, h2) == SetAppraisal(rows, id, a2, l2, h2)
  {
  }

  /** After an appraisal, looking a submission up by its code shows the new
      appraisal columns if the update targeted its rowid, and otherwise the
      row as it was; nothing but those three columns differs. */
  lemma AppraisalVisibleByCode(rows: seq<Submission>, lastId: int, code: string, id: int,
                               appraisal: Option<string>, low: Option<string>, high: Option<string>)
    requires WellFormed(rows, lastId)
    ensures var before := FindByCode(rows, code);
      var after := FindByCode(SetAppraisal(rows, id, appraisal, low, high), code);
      && (before.None? <==> after.None?)
      && (before.Some? ==> after.value == if before.value.id == id then Appraised(before.value, appraisal, low, high) else before.value)
  {
    var r := SetAppraisal(rows, id, appraisal, low, high);
    SetAppraisalKeepsKeys(rows, id, appraisal, low, high);
    var before := FindByCode(rows, code);
    var after := FindByCode(r, code);
    if before.None? {
      assert !CodeTaken(r, code) by {
        forall i | 0 <= i < |r| ensures r[i].secretCode != code {
          assert rows[i].secretCode != code;
        }
      }
    } else {
      var k :| 0 <= k < |rows| && rows[k] == before.value;
      assert r[k].secretCode == code;
      CodeDetermines(r, lastId, after);
      assert after.value == r[k];
    }
  }

  /** With a wildcard-free search string, the artist search finds exactly the
      rows whose artist name contains it, ignoring ASCII case. */
  lemma SearchLiteralIsSubstring(rows: seq<Submission>, q: string)
    requires SqlLike.Literal(q)
    ensures forall s :: s in MatchingArtist(rows, q) <==> s in rows && SqlLike.ContainsFolded(s.artistName, q)
  {
    var m := MatchingArtist(rows, q);
    forall s ensures s in m <==> s in rows && SqlLike.ContainsFolded(s.artistName, q) {
      SqlLike.SurroundedMatchesSubstring(s.artistName, q);
      assert s in m <==> multiset(m)[s] > 0;
      assert s in rows <==> multiset(rows)[s] > 0;
    }
  }

  /** Searching with an empty string would select the whole table. */
  lemma {:induction false} SearchEmptyIsAll(rows: seq<Submission>)
    ensures MatchingArtist(rows, "") == rows
  {
    if rows != [] {
      SqlLike.EmptySearchMatchesAll(rows[0].artistName);
      SearchEmptyIsAll(rows[1..]);
    }
  }
}
