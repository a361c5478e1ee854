/**
  * The resume repository (operations.py) over an in-memory table. `Db` is the
  * table as a value: the rows by primary key, the order in which a plain
  * SELECT returns them, and the next value of the id sequence. The step
  * functions give the outcome of each statement on that value; the class
  * `ResumeStore` holds the same three parts as fields and its methods change
  * them in place, each proved equal to its step function.
  */
module Operations {
  import opened Wrappers
  import opened Schemas
  import opened SkillFilter

  datatype Db = Db(rows: map<int, Resume>, order: seq<int>, nextId: int)

  /** The new table together with what the operation returns. */
  datatype Step<T> = Step(db: Db, out: T)

  /** An empty table; the id sequence starts at 1. */
  const EMPTY: Db := Db(map[], [], 1)

  predicate Distinct(s: seq<int>)
  {
    forall i, j :: 0 <= i < j < |s| ==> s[i] != s[j]
  }

  /** Some row holds `email`. */
  predicate EmailTaken(rows: map<int, Resume>, email: string)
  {
    exists id :: id in rows && rows[id].email == email
  }

  /** The unique constraint on `email`. */
  predicate EmailsUnique(rows: map<int, Resume>)
  {
    forall a, b :: a in rows && b in rows && rows[a].email == rows[b].email ==> a == b
  }

  /**
    * Table invariant: each id is listed once in `order`, exactly the stored
    * ids are listed, every row carries its own key, every key was drawn from
    * the sequence, and emails are unique.
    */
  ghost predicate Consistent(db: Db)
  {
    && 1 <= db.nextId
    && Distinct(db.order)
    && (forall i :: 0 <= i < |db.order| ==> db.order[i] in db.rows)
    && (forall id :: id in db.rows ==> id in db.order)
    && (forall id :: id in db.rows ==> db.rows[id].id == id && 1 <= id < db.nextId)
    && EmailsUnique(db.rows)
  }

  /** The rows in the order a plain SELECT returns them. */
  function Records(db: Db): (s: seq<Resume>)
    requires Consistent(db)
    ensures |s| == |db.order|
    ensures forall i :: 0 <= i < |s| ==> s[i] == db.rows[db.order[i]] && s[i].id == db.order[i]
  {
    seq(|db.order|, i requires 0 <= i < |db.order| && db.order[i] in db.rows => db.rows[db.order[i]])
  }

  /** Every stored row is listed, and only stored rows are. */
  lemma RecordsAreTheRows(db: Db, r: Resume)
    requires Consistent(db)
    ensures r in Records(db) <==> r.id in db.rows && db.rows[r.id] == r
  {
  }

  function Min(a: int, b: int): int
  {
    if a <= b then a else b
  }

  /** OFFSET `skip` LIMIT `limit` on `s`. */
  function Page<T>(s: seq<T>, skip: nat, limit: nat): (r: seq<T>)
    ensures |r| <= limit
    ensures |r| == if skip >= |s| then 0 else Min(limit, |s| - skip)
    ensures forall i :: 0 <= i < |r| ==> r[i] == s[skip + i]
  {
    if skip >= |s| then [] else s[skip..skip + Min(limit, |s| - skip)]
  }

  /**
    * `get_resumes` as the query is written: rows in table order, kept when
    * `skill` is neither None nor empty and some stored skill, read as an
    * ILIKE pattern, matches it; then offset by `skip` and cut to `limit`.
    * PostgreSQL refuses a negative OFFSET or LIMIT.
    */
  function ListingAsWritten(records: seq<Resume>, skip: int, limit: int, skill: Option<string>): (r: Result<seq<Resume>, DbError>)
    ensures skip < 0 ==> r == Failure(NegativeOffset)
    ensures 0 <= skip && limit < 0 ==> r == Failure(NegativeLimit)
    ensures 0 <= skip && 0 <= limit ==> r.Success? && |r.value| <= limit
    ensures r.Success? && (skill.None? || skill == Some("")) ==> r.value == Page(records, skip, limit)
    ensures r.Success? && skill.Some? && skill.value != "" ==>
              r.value == Page(FilterAsWritten(records, skill.value), skip, limit)
    ensures r.Success? && skill.Some? && skill.value != "" ==>
              forall x :: x in r.value ==> x in records && MatchesAsWritten(x, skill.value)
  {
    if skip < 0 then Failure(NegativeOffset)
    else if limit < 0 then Failure(NegativeLimit)
    else if skill.None? || skill.value == "" then Success(Page(records, skip, limit))
    else Success(Page(FilterAsWritten(records, skill.value), skip, limit))
  }

  /**
    * The listing with the intended skill match, case-insensitive equality
    * with a stored skill; otherwise as `ListingAsWritten`.
    */
  function Listing(records: seq<Resume>, skip: int, limit: int, skill: Option<string>): (r: Result<seq<Resume>, DbError>)
    ensures skip < 0 ==> r == Failure(NegativeOffset)
    ensures 0 <= skip && limit < 0 ==> r == Failure(NegativeLimit)
    ensures 0 <= skip && 0 <= limit ==> r.Success? && |r.value| <= limit
    ensures r.Success? && (skill.None? || skill == Some("")) ==> r.value == Page(records, skip, limit)
    ensures r.Success? && skill.Some? && skill.value != "" ==> r.value == Page(Filter(records, skill.value), skip, limit)
  {
    if skip < 0 then Failure(NegativeOffset)
    else if limit < 0 then Failure(NegativeLimit)
    else if skill.None? || skill.value == "" then Success(Page(records, skip, limit))
    else Success(Page(Filter(records, skill.value), skip, limit))
  }

  /**
    * With a non-empty skill, every listed row is a stored row whose skills
    * hold that skill ignoring case; and the rows come in table order.
    */
  lemma ListingSkillSound(records: seq<Resume>, skip: int, limit: int, skill: string)
    requires skill != ""
    requires Listing(records, skip, limit, Some(skill)).Success?
    ensures forall x :: x in Listing(records, skip, limit, Some(skill)).value ==>
              x in records && x.skills.Some? &&
              exists i :: 0 <= i < |x.skills.value| && EqualsIgnoreCase(skill, x.skills.value[i])
  {
  }

  /** When no stored skill holds `%`, `_` or `\`, the query as written lists exactly what the intended listing does. */
  lemma ListingAgreesOnLiteralSkills(records: seq<Resume>, skip: int, limit: int, skill: Option<string>)
    requires forall i :: 0 <= i < |records| ==> LiteralSkills(records[i])
    ensures ListingAsWritten(records, skip, limit, skill) == Listing(records, skip, limit, skill)
  {
    if skill.Some? {
      FilterAgreesOnLiteralSkills(records, skill.value);
    }
  }

  /** Listing without a skill never skips a row: every row past the offset and within the limit is listed. */
  lemma ListingUnfilteredComplete(records: seq<Resume>, skip: nat, limit: nat, k: nat)
    requires skip <= k < skip + limit && k < |records|
    ensures Listing(records, skip, limit, None).Success?
    ensures records[k] == Listing(records, skip, limit, None).value[k - skip]
  {
  }

  /** `create_resume`. The sequence value is drawn before the insert and is not returned on failure. */
  function Inserted(db: Db, input: ResumeCreate): (s: Step<Result<Resume, DbError>>)
    requires Consistent(db)
    ensures Consistent(s.db)
    ensures s.db.nextId == db.nextId + 1
    ensures EmailTaken(db.rows, input.email) <==> s.out.Failure?
    ensures s.out.Failure? ==> s.out.error == UniqueViolation && s.db.rows == db.rows && s.db.order == db.order
    ensures s.out.Success? ==>
      && var r := s.out.value;
      && r.id !in db.rows && Holds(r, input)
      && s.db.rows == db.rows[r.id := r]
      && s.db.order == db.order + [r.id]
  {
    var id := db.nextId;
    if EmailTaken(db.rows, input.email) then
      Step(Db(db.rows, db.order, id + 1), Failure(UniqueViolation))
    else
      var r := NewRow(id, input);
      assert id !in db.order;
      Step(Db(db.rows[id := r], db.order + [id], id + 1), Success(r))
  }

  /**
    * `update_resume`: None for a missing id; otherwise the patch is merged and
    * committed, unless the commit breaks a NOT NULL or unique constraint.
    */
  function Patched(db: Db, id: int, patch: ResumeUpdate): (s: Step<Result<Option<Resume>, DbError>>)
    requires Consistent(db)
    ensures Consistent(s.db)
    ensures s.db.order == db.order && s.db.nextId == db.nextId
    ensures id !in db.rows ==> s.out == Success(None) && s.db == db
    ensures s.out.Failure? ==> s.db == db
    ensures id in db.rows && NullsRequired(patch) ==> s.out == Failure(NotNullViolation)
    ensures id in db.rows && !NullsRequired(patch) ==>
      var m := Merge(db.rows[id], patch).value;
      if EmailTaken(db.rows - {id}, m.email) then s.out == Failure(UniqueViolation)
      else s.out == Success(Some(m)) && s.db.rows == db.rows[id := m] && m.id == id
  {
    if id !in db.rows then Step(db, Success(None))
    else
      match Merge(db.rows[id], patch)
      case Failure(e) => Step(db, Failure(e))
      case Success(m) =>
        if EmailTaken(db.rows - {id}, m.email) then Step(db, Failure(UniqueViolation))
        else
          var rows := db.rows[id := m];
          assert EmailsUnique(rows) by {
            forall a, b | a in rows && b in rows && a != b
              ensures rows[a].email != rows[b].email
            {
              if a == id {
                assert b in db.rows - {id} && (db.rows - {id})[b] == rows[b];
              } else if b == id {
                assert a in db.rows - {id} && (db.rows - {id})[a] == rows[a];
              }
            }
          }
          Step(Db(rows, db.order, db.nextId), Success(Some(m)))
  }

  /** `s` with every occurrence of `x` removed. */
  function Without(s: seq<int>, x: int): (r: seq<int>)
    ensures x !in r
    ensures forall y :: y != x ==> (y in r <==> y in s)
    ensures Distinct(s) ==> Distinct(r)
  {
    if s == [] then []
    else if s[0] == x then Without(s[1..], x)
    else
      var rest := Without(s[1..], x);
      assert Distinct(s) ==> s[0] !in s[1..];
      [s[0]] + rest
  }

  /** `delete_resume`: True when a row was removed, False when there was none. */
  function Removed(db: Db, id: int): (s: Step<bool>)
    requires Consistent(db)
    ensures Consistent(s.db)
    ensures s.out <==> id in db.rows
    ensures s.db.rows == db.rows - {id} && s.db.nextId == db.nextId
    ensures !s.out ==> s.db == db
  {
    if id !in db.rows then Step(db, false)
    else
      var order := Without(db.order, id);
      assert forall i :: 0 <= i < |order| ==> order[i] in db.order && order[i] != id;
      Step(Db(db.rows - {id}, order, db.nextId), true)
  }

  /** Deleting the same id twice: the second delete finds nothing and changes nothing. */
  lemma DeleteTwice(db: Db, id: int)
    requires Consistent(db)
    ensures var once := Removed(db, id).db;
            !Removed(once, id).out && Removed(once, id).db == once
  {
  }

  /** A successful create appends exactly the new row to the listing. */
  lemma CreateAppends(db: Db, input: ResumeCreate)
    requires Consistent(db)
    requires Inserted(db, input).out.Success?
    ensures Records(Inserted(db, input).db) == Records(db) + [Inserted(db, input).out.value]
  {
  }

  /** Once a create succeeds, a second create with the same email fails and stores nothing. */
  lemma DuplicateEmailRejected(db: Db, first: ResumeCreate, second: ResumeCreate)
    requires Consistent(db)
    requires Inserted(db, first).out.Success?
    requires second.email == first.email
    ensures var after := Inserted(db, first).db;
            && Inserted(after, second).out == Failure(UniqueViolation)
            && Inserted(after, second).db.rows == after.rows
            && Inserted(after, second).db.order == after.order
  {
    var r := Inserted(db, first).out.value;
    assert Inserted(db, first).db.rows[r.id].email == second.email;
  }

  /** A patch that sends no field succeeds, returns the stored row and leaves the table as it was. */
  lemma EmptyPatchIsNoOp(db: Db, id: int)
    requires Consistent(db) && id in db.rows
    ensures Patched(db, id, EMPTY_UPDATE) == Step(db, Success(Some(db.rows[id])))
  {
  }

  /** A successful update keeps the row in its place in the listing and replaces only it. */
  lemma UpdateKeepsPlace(db: Db, id: int, patch: ResumeUpdate)
    requires Consistent(db)
    requires Patched(db, id, patch).out.Success?
    ensures var after := Records(Patched(db, id, patch).db);
            && |after| == |Records(db)|
            && forall i :: 0 <= i < |after| && db.order[i] != id ==> after[i] == Records(db)[i]
  {
  }

  /** The first position of `x` in `s`. */
  function IndexOf(s: seq<int>, x: int): (i: nat)
    requires x in s
    ensures i < |s| && s[i] == x
    ensures forall j :: 0 <= j < i ==> s[j] != x
  {
    if s[0] == x then 0 else 1 + IndexOf(s[1..], x)
  }

  lemma {:induction false} WithoutSingle(s: seq<int>, x: int)
    requires Distinct(s) && x in s
    ensures Without(s, x) == s[..IndexOf(s, x)] + s[IndexOf(s, x) + 1..]
    decreases |s|
  {
    if s[0] == x {
      assert x !in s[1..];
      assert Without(s[1..], x) == s[1..] by { WithoutAbsent(s[1..], x); }
    } else {
      assert Distinct(s[1..]);
      WithoutSingle(s[1..], x);
      var i := IndexOf(s[1..], x);
      assert s[..i + 1] == [s[0]] + s[1..][..i];
      assert s[i + 2..] == s[1..][i + 1..];
    }
  }

  lemma {:induction false} WithoutAbsent(s: seq<int>, x: int)
    requires x !in s
    ensures Without(s, x) == s
    decreases |s|
  {
    if s != [] {
      WithoutAbsent(s[1..], x);
      assert [s[0]] + s[1..] == s;
    }
  }

  /** Dropping position `k` from the order drops the record at `k` from the listing, given the other rows are kept. */
  lemma RecordsSplice(db: Db, after: Db, k: nat)
    requires Consistent(db) && Consistent(after) && k < |db.order|
    requires after.order == db.order[..k] + db.order[k + 1..]
    requires forall x :: x in after.rows ==> x in db.rows && after.rows[x] == db.rows[x]
    ensures Records(after) == Records(db)[..k] + Records(db)[k + 1..]
  {
  }

  /** A successful delete drops exactly that row from the listing and keeps the others in order. */
  lemma DeleteDropsOne(db: Db, id: int)
    requires Consistent(db) && id in db.rows
    ensures var k := IndexOf(db.order, id);
            Records(Removed(db, id).db) == Records(db)[..k] + Records(db)[k + 1..]
  {
    WithoutSingle(db.order, id);
    RecordsSplice(db, Removed(db, id).db, IndexOf(db.order, id));
  }

  /**
    * A session on an empty table: the first resume gets id 1, a patch of its
    * phone changes only the phone, and deleting it leaves the table empty.
    */
  lemma Walkthrough(input: ResumeCreate, phone: string)
    ensures Consistent(EMPTY)
    ensures var created := Inserted(EMPTY, input);
            && created.out == Success(NewRow(1, input))
            && var patch := EMPTY_UPDATE.(phone := Some(Some(phone)));
            && var updated := Patched(created.db, 1, patch);
            && updated.out == Success(Some(NewRow(1, input).(phone := phone)))
            && var deleted := Removed(updated.db, 1);
            && deleted.out
            && Records(deleted.db) == []
            && !Removed(deleted.db, 1).out
  {
    var created := Inserted(EMPTY, input);
    assert !EmailTaken(EMPTY.rows, input.email);
    var patch := EMPTY_UPDATE.(phone := Some(Some(phone)));
    assert !EmailTaken(created.db.rows - {1}, input.email) by {
      assert created.db.rows - {1} == map[];
    }
    var updated := Patched(created.db, 1, patch);
    assert updated.out == Success(Some(NewRow(1, input).(phone := phone)));
    assert updated.db.order == [1];
    var deleted := Removed(updated.db, 1);
    assert [1][1..] == [];
    assert deleted.db.order == Without([1], 1) == [];
  }

  /** The table held in place, as operations.py sees it through its session. */
  class ResumeStore {
    var rows: map<int, Resume>
    var order: seq<int>
    var nextId: int

    function State(): Db
      reads this
    {
      Db(rows, order, nextId)
    }

    ghost predicate Valid()
      reads this
    {
      Consistent(State())
    }

    constructor ()
      ensures Valid() && State() == EMPTY
    {
      rows, order, nextId := map[], [], 1;
    }

    /** `get_resume`: the row with that primary key, or None. */
    method Get(id: int) returns (r: Option<Resume>)
      requires Valid()
      ensures r.Some? <==> id in rows
      ensures r.Some? ==> r.value == rows[id] && r.value.id == id
    {
      if id in rows {
        r := Some(rows[id]);
      } else {
        r := None;
      }
    }

    /**
      * `get_resumes`: filter, then offset, then limit; the table is only read.
      * When no stored skill holds a special character, the result is also the
      * intended `Listing`.
      */
    method List(skip: int, limit: int, skill: Option<string>) returns (r: Result<seq<Resume>, DbError>)
      requires Valid()
      ensures r == ListingAsWritten(Records(State()), skip, limit, skill)
      ensures (forall id :: id in rows ==> LiteralSkills(rows[id])) ==>
                r == Listing(Records(State()), skip, limit, skill)
      ensures r.Success? ==> forall x :: x in r.value ==> x.id in rows && rows[x.id] == x
    {
      var records := Records(State());
      r := ListingAsWritten(records, skip, limit, skill);
      if forall id :: id in rows ==> LiteralSkills(rows[id]) {
        ListingAgreesOnLiteralSkills(records, skip, limit, skill);
      }
      if r.Success? {
        forall x | x in r.value ensures x.id in rows && rows[x.id] == x {
          var k :| 0 <= k < |r.value| && r.value[k] == x;
          var f := if skill.None? || skill.value == "" then records else FilterAsWritten(records, skill.value);
          assert x in f;
          RecordsAreTheRows(State(), x);
        }
      }
    }

    /** `create_resume`: draw an id, insert, commit. */
    method Create(input: ResumeCreate) returns (r: Result<Resume, DbError>)
      requires Valid()
      modifies this
      ensures Valid()
      ensures Step(State(), r) == Inserted(old(State()), input)
    {
      ghost var step := Inserted(State(), input);
      var id := nextId;
      nextId := nextId + 1;
      if EmailTaken(rows, input.email) {
        r := Failure(UniqueViolation);
        return;
      }
      var row := NewRow(id, input);
      rows := rows[id := row];
      order := order + [id];
      r := Success(row);
      assert State() == step.db;
    }

    /** `update_resume`: look the row up, assign the sent fields, commit. */
    method Update(id: int, patch: ResumeUpdate) returns (r: Result<Option<Resume>, DbError>)
      requires Valid()
      modifies this
      ensures Valid()
      ensures Step(State(), r) == Patched(old(State()), id, patch)
    {
      ghost var step := Patched(State(), id, patch);
      var found := Get(id);
      if found.None? {
        return Success(None);
      }
      var merged := Merge(found.value, patch);
      if merged.Failure? {
        return Failure(merged.error);
      }
      if EmailTaken(rows - {id}, merged.value.email) {
        return Failure(UniqueViolation);
      }
      rows := rows[id := merged.value];
      r := Success(Some(merged.value));
      assert State() == step.db;
    }

    /** `delete_resume`: look the row up, delete it, commit. */
    method Delete(id: int) returns (removed: bool)
      requires Valid()
      modifies this
      ensures Valid()
      ensures Step(State(), removed) == Removed(old(State()), id)
    {
      ghost var step := Removed(State(), id);
      var found := Get(id);
      if found.None? {
        return false;
      }
      rows := rows - {id};
      order := Without(order, id);
      removed := true;
      assert State() == step.db;
    }
  }
}
