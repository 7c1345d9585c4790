/** The in-memory student list of `StudentManagementSystem`: records in insertion
    order, looked up by id with a first-match linear scan. The store is a value here;
    each operation returns the list it leaves behind. */
module RecordStore {
  import opened Outcomes
  import opened JavaText
  import opened StudentRecord

  type Store = seq<Student>

  /** Why an operation left the store as it was. */
  datatype Error =
    | DuplicateId   // add: the id is already taken
    | NoRecords     // update, delete: the list is empty, so no id is even asked for
    | NotFound      // update, delete: no record has the id

  /** The ids present, as a set: the reference the lookups are measured against. */
  function Ids(s: Store): set<Int32> {
    set st | st in s :: st.id
  }

  /** The store's invariant: no two records share an id. */
  ghost predicate UniqueIds(s: Store) {
    forall i, j :: 0 <= i < j < |s| ==> s[i].id != s[j].id
  }

  /** Every record's marks are in 0..100 or are `default`: the most the prompts
      guarantee, since a blank marks line stores the prompt's default unchecked. */
  ghost predicate MarksInRangeOr(s: Store, default: int) {
    forall st :: st in s ==> 0 <= st.marks <= 100 || st.marks == default
  }

  /** Every record has a name: add refuses a blank one and update keeps the old
      name when the new one is blank. */
  ghost predicate NamesNonEmpty(s: Store) {
    forall st :: st in s ==> |st.name| > 0
  }

  // ---------------------------------------------------------------------------
  // Lookup
  // ---------------------------------------------------------------------------

  /** The position of the first record with `id`, scanning in list order. */
  function FindIndex(s: Store, id: Int32): (r: Option<nat>)
    ensures r.Some? ==> r.value < |s| && s[r.value].id == id
    ensures r.Some? ==> forall j :: 0 <= j < r.value ==> s[j].id != id
    ensures r.None? ==> forall j :: 0 <= j < |s| ==> s[j].id != id
  {
    if |s| == 0 then None
    else if s[0].id == id then Some(0)
    else
      match FindIndex(s[1..], id)
      case None => None
      case Some(k) => Some(k + 1)
  }

  /** `findStudentById`: the first record in list order whose id matches, or `None`
      (Java's `null`) when there is none. */
  function Find(s: Store, id: Int32): (r: Option<Student>)
    ensures r.Some? <==> id in Ids(s)
    ensures r.Some? ==> r.value.id == id
    ensures r.Some? ==> exists k :: 0 <= k < |s| && s[k] == r.value && forall j :: 0 <= j < k ==> s[j].id != id
  {
    match FindIndex(s, id)
    case None => None
    case Some(k) => Some(s[k])
  }

  /** `isIdExists`. */
  predicate IdExists(s: Store, id: Int32)
    ensures IdExists(s, id) <==> id in Ids(s)
  {
    Find(s, id).Some?
  }

  /** With unique ids, looking up a record's id finds that very record. */
  lemma FindUnique(s: Store, st: Student)
    requires UniqueIds(s)
    requires st in s
    ensures Find(s, st.id) == Some(st)
  {
    var k :| 0 <= k < |s| && s[k] == st;
    assert FindIndex(s, st.id) == Some(k);
  }

  // ---------------------------------------------------------------------------
  // Add
  // ---------------------------------------------------------------------------

  /** The store part of `addStudent`: refused when the id is taken, otherwise the
      record is appended at the end. */
  function Add(s: Store, st: Student): (r: Result<Store, Error>)
    ensures r.Err? <==> st.id in Ids(s)
    ensures r.Err? ==> r.error == DuplicateId
    ensures r.Ok? ==> |r.value| == |s| + 1 && r.value[..|s|] == s && r.value[|s|] == st
    ensures r.Ok? ==> Ids(r.value) == Ids(s) + {st.id}
    ensures r.Ok? && UniqueIds(s) ==> UniqueIds(r.value)
    ensures r.Ok? && NamesNonEmpty(s) && |st.name| > 0 ==> NamesNonEmpty(r.value)
  {
    if IdExists(s, st.id) then
      Err(DuplicateId)
    else
      var t := s + [st];
      assert forall x :: x in t <==> x in s || x == st;
      assert t[..|s|] == s;
      Ok(t)
  }

  // ---------------------------------------------------------------------------
  // Update
  // ---------------------------------------------------------------------------

  /** The store part of `updateStudent`. `newName` is the trimmed line the user typed
      and replaces the name only when it is not empty; `newMarks` is what the marks
      prompt returned and is always stored. Only the first record with `id` changes. */
  function Update(s: Store, id: Int32, newName: string, newMarks: Int32): (r: Result<Store, Error>)
    ensures |s| == 0 ==> r == Err(NoRecords)
    ensures |s| > 0 && id !in Ids(s) ==> r == Err(NotFound)
    ensures r.Ok? <==> |s| > 0 && id in Ids(s)
    ensures r.Ok? ==> |r.value| == |s|
    ensures r.Ok? ==> forall i :: 0 <= i < |s| ==> r.value[i].id == s[i].id
    ensures r.Ok? ==> Ids(r.value) == Ids(s)
    ensures r.Ok? ==> forall i :: 0 <= i < |s| && s[i].id != id ==> r.value[i] == s[i]
    ensures r.Ok? ==> forall i :: 0 <= i < |s| && FindIndex(s, id) != Some(i) ==> r.value[i] == s[i]
    ensures r.Ok? ==> Find(r.value, id).Some?
    ensures r.Ok? ==>
      var was := Find(s, id).value;
      var now := Find(r.value, id).value;
      && now.name == (if |newName| > 0 then newName else was.name)
      && now.marks == newMarks
    ensures r.Ok? && UniqueIds(s) ==> UniqueIds(r.value)
  {
    if |s| == 0 then Err(NoRecords)
    else
      match FindIndex(s, id)
      case None => Err(NotFound)
      case Some(k) =>
        var st := if |newName| > 0 then s[k].SetName(newName) else s[k];
        var t := s[k := st.SetMarks(newMarks)];
        assert FindIndex(t, id) == Some(k) by { FindIndexSameIds(s, t, id); }
        SameIdsSameSet(s, t);
        Ok(t)
  }

  /** Update never leaves a record without a name: an empty new name keeps the old one. */
  lemma UpdateKeepsNames(s: Store, id: Int32, newName: string, newMarks: Int32)
    requires Update(s, id, newName, newMarks).Ok?
    ensures NamesNonEmpty(s) ==> NamesNonEmpty(Update(s, id, newName, newMarks).value)
  {
    if NamesNonEmpty(s) {
      var t := Update(s, id, newName, newMarks).value;
      var k := FindIndex(s, id).value;
      forall st | st in t
        ensures |st.name| > 0
      {
        var i :| 0 <= i < |t| && t[i] == st;
        assert s[i] in s;
      }
    }
  }

  /** Lookup sees only ids, so two stores with the same ids position by position
      find an id at the same place. */
  lemma {:induction false} FindIndexSameIds(s: Store, t: Store, id: Int32)
    requires |s| == |t|
    requires forall i :: 0 <= i < |s| ==> s[i].id == t[i].id
    ensures FindIndex(s, id) == FindIndex(t, id)
  {
    if |s| > 0 && s[0].id != id {
      FindIndexSameIds(s[1..], t[1..], id);
    }
  }

  /** Two stores with the same ids position by position have the same id set. */
  lemma SameIdsSameSet(s: Store, t: Store)
    requires |s| == |t|
    requires forall i :: 0 <= i < |s| ==> s[i].id == t[i].id
    ensures Ids(s) == Ids(t)
  {
    forall x | x in Ids(s) ensures x in Ids(t) {
      var st :| st in s && st.id == x;
      var i :| 0 <= i < |s| && s[i] == st;
      assert t[i] in t;
    }
    forall x | x in Ids(t) ensures x in Ids(s) {
      var st :| st in t && st.id == x;
      var i :| 0 <= i < |t| && t[i] == st;
      assert s[i] in s;
    }
  }

  // ---------------------------------------------------------------------------
  // Delete
  // ---------------------------------------------------------------------------

  /** How many records carry `id`. */
  function Matches(s: Store, id: Int32): nat {
    if |s| == 0 then 0 else (if s[0].id == id then 1 else 0) + Matches(s[1..], id)
  }

  /** `removeIf(s -> s.getId() == id)`: every record with `id` goes; the others stay. */
  function RemoveId(s: Store, id: Int32): (r: Store)
    ensures |r| == |s| - Matches(s, id)
  {
    if |s| == 0 then []
    else
      var rest := RemoveId(s[1..], id);
      if s[0].id == id then rest else [s[0]] + rest
  }

  /** What is left after removal: exactly the records whose id differs. */
  lemma {:induction false} RemoveIdContents(s: Store, id: Int32)
    ensures forall st :: st in RemoveId(s, id) <==> st in s && st.id != id
  {
    if |s| > 0 {
      RemoveIdContents(s[1..], id);
      assert forall st :: st in s <==> st == s[0] || st in s[1..];
    }
  }

  /** The store part of `deleteStudent`: reports success exactly when a record had
      the id. */
  function Delete(s: Store, id: Int32): (r: Result<Store, Error>)
    ensures |s| == 0 ==> r == Err(NoRecords)
    ensures |s| > 0 ==> (r.Ok? <==> id in Ids(s))
    ensures |s| > 0 && id !in Ids(s) ==> r == Err(NotFound)
    ensures r.Ok? ==> r.value == RemoveId(s, id)
    ensures r.Ok? ==> Ids(r.value) == Ids(s) - {id}
    ensures r.Ok? ==> forall st :: st in r.value <==> st in s && st.id != id
    ensures r.Ok? && UniqueIds(s) ==> UniqueIds(r.value) && |r.value| == |s| - 1
  {
    if |s| == 0 then Err(NoRecords)
    else
      var t := RemoveId(s, id);
      if |t| == |s| then
        NoMatchesMeansAbsent(s, id);
        Err(NotFound)
      else
        RemoveIdContents(s, id);
        assert id in Ids(s) by { MatchesMeansPresent(s, id); }
        assert UniqueIds(s) ==> UniqueIds(t) && |t| == |s| - 1 by {
          if UniqueIds(s) {
            RemoveIdKeepsUnique(s, id);
            UniqueMatchesAtMostOne(s, id);
          }
        }
        Ok(t)
  }

  lemma {:induction false} NoMatchesMeansAbsent(s: Store, id: Int32)
    requires Matches(s, id) == 0
    ensures id !in Ids(s)
  {
    if |s| > 0 {
      NoMatchesMeansAbsent(s[1..], id);
      assert forall st :: st in s ==> st == s[0] || st in s[1..];
    }
  }

  lemma {:induction false} MatchesMeansPresent(s: Store, id: Int32)
    requires Matches(s, id) > 0
    ensures id in Ids(s)
  {
    if s[0].id != id {
      MatchesMeansPresent(s[1..], id);
      var st :| st in s[1..] && st.id == id;
      assert st in s;
    }
  }

  /** Unique ids: at most one record matches, so delete removes at most one. */
  lemma {:induction false} UniqueMatchesAtMostOne(s: Store, id: Int32)
    requires UniqueIds(s)
    ensures Matches(s, id) <= 1
  {
    if |s| > 0 {
      UniqueMatchesAtMostOne(s[1..], id);
      if s[0].id == id {
        AbsentNoMatches(s[1..], id);
      }
    }
  }

  lemma {:induction false} AbsentNoMatches(s: Store, id: Int32)
    requires forall i :: 0 <= i < |s| ==> s[i].id != id
    ensures Matches(s, id) == 0
  {
    if |s| > 0 {
      AbsentNoMatches(s[1..], id);
    }
  }

  /** Removing records cannot create a clash of ids. */
  lemma {:induction false} RemoveIdKeepsUnique(s: Store, id: Int32)
    requires UniqueIds(s)
    ensures UniqueIds(RemoveId(s, id))
  {
    if |s| > 0 {
      var rest := RemoveId(s[1..], id);
      RemoveIdKeepsUnique(s[1..], id);
      RemoveIdContents(s[1..], id);
      if s[0].id != id {
        forall j | 0 <= j < |rest|
          ensures rest[j].id != s[0].id
        {
          assert rest[j] in s[1..];
          var m :| 0 <= m < |s[1..]| && s[1..][m] == rest[j];
          assert s[m + 1] == rest[j];
        }
        ConsUnique(s[0], rest);
      }
    }
  }

  lemma ConsUnique(st: Student, s: Store)
    requires UniqueIds(s)
    requires forall j :: 0 <= j < |s| ==> s[j].id != st.id
    ensures UniqueIds([st] + s)
  {
    var t := [st] + s;
    forall i, j | 0 <= i < j < |t|
      ensures t[i].id != t[j].id
    {
      assert t[j] == s[j - 1];
      if i > 0 {
        assert t[i] == s[i - 1];
      }
    }
  }

  /** Delete keeps the order of the records it leaves: removing from a
      concatenation is removing from each part. */
  lemma {:induction false} RemoveIdDistributes(a: Store, b: Store, id: Int32)
    ensures RemoveId(a + b, id) == RemoveId(a, id) + RemoveId(b, id)
  {
    if |a| > 0 {
      var ab := a + b;
      assert ab[0] == a[0];
      assert ab[1..] == a[1..] + b;
      RemoveIdDistributes(a[1..], b, id);
    } else {
      assert a + b == b;
    }
  }

  /** With unique ids, delete cuts out exactly the one record at the id's position
      and leaves the records before and after it in place. */
  lemma DeleteUniqueCutsOne(s: Store, id: Int32, k: nat)
    requires UniqueIds(s)
    requires k < |s| && s[k].id == id
    ensures Delete(s, id) == Ok(s[..k] + s[k + 1..])
  {
    var before, after := s[..k], s[k + 1..];
    assert s == before + ([s[k]] + after);
    RemoveIdDistributes(before, [s[k]] + after, id);
    RemoveIdDistributes([s[k]], after, id);
    forall j | 0 <= j < |after| ensures after[j].id != id {
      assert after[j] == s[k + 1 + j];
    }
    RemoveIdNoMatch(before, id);
    RemoveIdNoMatch(after, id);
    assert RemoveId([s[k]], id) == [];
    assert id in Ids(s) by { assert s[k] in s; }
  }

  lemma {:induction false} RemoveIdNoMatch(s: Store, id: Int32)
    requires forall j :: 0 <= j < |s| ==> s[j].id != id
    ensures RemoveId(s, id) == s
  {
    if |s| > 0 {
      RemoveIdNoMatch(s[1..], id);
      assert s == [s[0]] + s[1..];
    }
  }

  /** Deleting the same id again is refused and leaves the store as it was. */
  lemma DeleteTwice(s: Store, id: Int32)
    requires Delete(s, id).Ok?
    ensures Delete(Delete(s, id).value, id).Err?
  {
  }

  /** One session's worth of store calls: add Alice, refuse Bob under the same id,
      change only the marks, delete, delete again. The last delete meets an empty
      list, so the code reports that there are no records rather than that the id
      was not found. */
  lemma AliceScenario()
    ensures var alice := Student(1, "Alice", 85);
      && Add([], alice) == Ok([alice])
      && Add([alice], Student(1, "Bob", 90)) == Err(DuplicateId)
      && Update([alice], 1, "", 95) == Ok([Student(1, "Alice", 95)])
      && Find([Student(1, "Alice", 95)], 1) == Some(Student(1, "Alice", 95))
      && Delete([Student(1, "Alice", 95)], 1) == Ok([])
      && Delete([], 1) == Err(NoRecords)
  {
    var alice := Student(1, "Alice", 85);
    assert Ids([alice]) == {1} by { assert alice in [alice]; }
    var now := Student(1, "Alice", 95);
    assert FindIndex([alice], 1) == Some(0);
    assert [alice][0 := now] == [now];
    assert RemoveId([now], 1) == [];
  }
}
