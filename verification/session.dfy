/** The store-changing menu actions of `StudentManagementSystem` and its main loop,
    driven by a sequence of console lines. Each action returns the store it leaves,
    how many lines it read and how it ended. `OutOfInput` is where the lines ran out
    mid-prompt: Java's `Scanner.nextLine` would throw there and end the program, and
    the store returned is the in-memory list at that moment. */
module Session {
  import opened Outcomes
  import opened JavaText
  import opened StudentRecord
  import opened RecordStore
  import opened Validation

  datatype Outcome = Done | Refused(reason: Error) | OutOfInput

  /** `addStudent`, reading from line `at` on: the id is read and checked against
      the store before the name and marks are asked for. `idAt` and `nameAt` are
      where the id and name prompts stopped: the accepted line, or `|lines|` when
      the lines ran out first. */
  method AddStudent(s: Store, lines: seq<string>, at: nat) returns (s': Store, next: nat, outcome: Outcome, idAt: nat, nameAt: nat)
    requires at <= |lines|
    ensures at <= next <= |lines|
    ensures idAt == FirstIndex(lines, at, AcceptId)
    ensures outcome == OutOfInput ==> next == |lines|
    ensures outcome != Done ==> s' == s
    ensures outcome.Refused? <==> idAt < |lines| && AcceptId(lines[idAt]).value in Ids(s)
    ensures outcome.Refused? ==> outcome.reason == DuplicateId && next == idAt + 1
    ensures idAt < |lines| && AcceptId(lines[idAt]).value !in Ids(s) ==>
      && nameAt == FirstIndex(lines, idAt + 1, AcceptName)
      && (outcome == Done <==> nameAt < |lines| && FirstIndex(lines, nameAt + 1, MarksPrompt(ADD_DEFAULT_MARKS)) < |lines|)
    ensures outcome == Done ==>
      && idAt < |lines| && nameAt < |lines|
      && next == FirstIndex(lines, nameAt + 1, MarksPrompt(ADD_DEFAULT_MARKS)) + 1
      && AddedFrom(s, AcceptId(lines[idAt]).value, lines, nameAt, next, s')
    ensures Ids(s) <= Ids(s') && forall x :: x in Ids(s') - Ids(s) ==> x > 0
    ensures KeepsInvariants(s, s')
  {
    var id, afterId := FirstAccepted(lines, at, AcceptId);
    if id.None? {
      s', next, outcome, idAt, nameAt := s, afterId, OutOfInput, |lines|, |lines|;
    } else {
      idAt := afterId - 1;
      assert AcceptId(lines[idAt]) == id;
      if IdExists(s, id.value) {
        s', next, outcome, nameAt := s, afterId, Refused(DuplicateId), |lines|;
      } else {
        s', next, outcome, nameAt := AddNew(s, AcceptId(lines[idAt]).value, lines, idAt + 1);
      }
    }
  }

  /** The name and marks prompts of `addStudent` once `id` is known to be free,
      reading from line `at`. `nameAt` is where the name prompt stopped. The record
      is added only when both prompts got an answer. */
  method AddNew(s: Store, id: Int32, lines: seq<string>, at: nat) returns (s': Store, next: nat, outcome: Outcome, nameAt: nat)
    requires at <= |lines|
    requires id > 0 && id !in Ids(s)
    ensures at <= next <= |lines|
    ensures !outcome.Refused?
    ensures nameAt == FirstIndex(lines, at, AcceptName)
    ensures outcome == Done <==> nameAt < |lines| && FirstIndex(lines, nameAt + 1, MarksPrompt(ADD_DEFAULT_MARKS)) < |lines|
    ensures outcome == OutOfInput ==> next == |lines| && s' == s
    ensures outcome == Done ==>
      && next == FirstIndex(lines, nameAt + 1, MarksPrompt(ADD_DEFAULT_MARKS)) + 1
      && AddedFrom(s, id, lines, nameAt, next, s')
    ensures Ids(s') == Ids(s) || Ids(s') == Ids(s) + {id}
    ensures KeepsInvariants(s, s')
  {
    var name, afterName := FirstAccepted(lines, at, AcceptName);
    if name.None? {
      return s, afterName, OutOfInput, |lines|;
    }
    nameAt := afterName - 1;
    assert AcceptName(lines[nameAt]) == name;
    AcceptedNameIsTrimmed(lines[nameAt]);
    var marks, afterMarks := FirstAccepted(lines, afterName, MarksPrompt(ADD_DEFAULT_MARKS));
    if marks.None? {
      return s, afterMarks, OutOfInput, nameAt;
    }
    assert AcceptMarks(lines[afterMarks - 1], ADD_DEFAULT_MARKS) == marks;
    var st := New(id, AcceptName(lines[nameAt]).value, AcceptMarks(lines[afterMarks - 1], ADD_DEFAULT_MARKS).value);
    var r := Add(s, st);
    s', next, outcome := r.value, afterMarks, Done;
    assert AddedFrom(s, id, lines, nameAt, next, s');
    AddedRecordIsFresh(s, id, lines, nameAt, next, s');
    if MarksInRangeOr(s, ADD_DEFAULT_MARKS) {
      forall x | x in s' ensures 0 <= x.marks <= 100 || x.marks == ADD_DEFAULT_MARKS {
        if x != st {
          var i :| 0 <= i < |s'| && s'[i] == x;
          assert s'[..|s|][i] == x;
        }
      }
    }
    assert KeepsInvariants(s, s');
  }

  /** The record an add appends is fresh: the store gains exactly that record at
      the end, and it meets every guarantee of the add prompts. */
  lemma AddedRecordIsFresh(s: Store, id: Int32, lines: seq<string>, nameAt: nat, next: nat, t: Store)
    requires id > 0 && id !in Ids(s)
    requires AddedFrom(s, id, lines, nameAt, next, t)
    ensures |t| == |s| + 1 && t[..|s|] == s
    ensures t[|s|].id == id && FreshRecord(s, t[|s|], lines[nameAt], lines[next - 1])
  {
    AcceptedNameIsTrimmed(lines[nameAt]);
    TrimEmptyIffBlank(lines[next - 1]);
  }

  /** The store invariants the menu actions keep: unique ids, marks in 0..100 or
      -1, and non-empty names each carry over from `s` to `t`. */
  ghost predicate KeepsInvariants(s: Store, t: Store) {
    && (UniqueIds(s) ==> UniqueIds(t))
    && (MarksInRangeOr(s, ADD_DEFAULT_MARKS) ==> MarksInRangeOr(t, ADD_DEFAULT_MARKS))
    && (NamesNonEmpty(s) ==> NamesNonEmpty(t))
  }

  /** What the add prompts guarantee of a new record: an id above zero that `s`
      does not hold, the name line trimmed, which is not empty, and marks in 0..100
      or -1, where -1 comes exactly from a marks line that trims to nothing and any
      other marks are the number on the marks line. */
  ghost predicate FreshRecord(s: Store, st: Student, nameLine: string, marksLine: string) {
    && st.id > 0 && st.id !in Ids(s)
    && st.name == Trim(nameLine) && |st.name| > 0 && Trim(st.name) == st.name
    && (0 <= st.marks <= 100 || st.marks == ADD_DEFAULT_MARKS)
    && (st.marks == ADD_DEFAULT_MARKS <==> Trim(marksLine) == [])
    && (Trim(marksLine) != [] ==> ParseInt(Trim(marksLine)) == Some(st.marks))
  }

  /** `t` is the store after adding the record made of `id`, the accepted name line
      `lines[nameAt]` and the accepted marks line `lines[next - 1]`. */
  ghost predicate AddedFrom(s: Store, id: Int32, lines: seq<string>, nameAt: nat, next: nat, t: Store) {
    && nameAt < next <= |lines|
    && AcceptName(lines[nameAt]).Some? && AcceptMarks(lines[next - 1], ADD_DEFAULT_MARKS).Some?
    && Add(s, New(id, AcceptName(lines[nameAt]).value, AcceptMarks(lines[next - 1], ADD_DEFAULT_MARKS).value)) == Ok(t)
  }

  /** `updateStudent`, reading from line `at` on. An empty list is refused before any
      id is asked for. The line after the id is the name line, trimmed. `setName`
      happens before the marks prompt, whose blank answer keeps the current marks.
      `idAt` is where the id prompt stopped: the accepted line, or `|lines|` when
      the lines ran out first. */
  method UpdateStudent(s: Store, lines: seq<string>, at: nat) returns (s': Store, next: nat, outcome: Outcome, idAt: nat)
    requires at <= |lines|
    ensures at <= next <= |lines|
    ensures outcome == Refused(NoRecords) <==> |s| == 0
    ensures |s| == 0 ==> next == at
    ensures outcome.Refused? ==> s' == s
    ensures |s| > 0 ==> idAt == FirstIndex(lines, at, AcceptId)
    ensures |s| > 0 && idAt == |lines| ==> outcome == OutOfInput && next == |lines| && s' == s
    ensures outcome == Refused(NotFound) <==> |s| > 0 && idAt < |lines| && AcceptId(lines[idAt]).value !in Ids(s)
    ensures outcome == Refused(NotFound) ==> next == idAt + 1
    ensures |s| > 0 && idAt < |lines| && AcceptId(lines[idAt]).value in Ids(s) ==>
      (s', next, outcome) == EditResult(s, AcceptId(lines[idAt]).value, lines, idAt + 1)
    ensures |s'| == |s| && forall i :: 0 <= i < |s| ==> s'[i].id == s[i].id
    ensures Ids(s') == Ids(s)
    ensures KeepsInvariants(s, s')
  {
    if |s| == 0 {
      return s, at, Refused(NoRecords), at;
    }
    var id, afterId := FirstAccepted(lines, at, AcceptId);
    if id.None? {
      return s, afterId, OutOfInput, |lines|;
    }
    idAt := afterId - 1;
    assert AcceptId(lines[idAt]) == id;
    s', next, outcome := UpdateId(s, AcceptId(lines[idAt]).value, lines, idAt + 1);
  }

  /** `updateStudent` once the id is read, reading from line `at`: an id the store
      does not hold is refused before any further line is read. */
  method UpdateId(s: Store, id: Int32, lines: seq<string>, at: nat) returns (s': Store, next: nat, outcome: Outcome)
    requires at <= |lines|
    ensures at <= next <= |lines|
    ensures outcome == Refused(NotFound) <==> id !in Ids(s)
    ensures outcome.Refused? ==> outcome == Refused(NotFound) && next == at && s' == s
    ensures id in Ids(s) ==> (s', next, outcome) == EditResult(s, id, lines, at)
    ensures |s'| == |s| && forall i :: 0 <= i < |s| ==> s'[i].id == s[i].id
    ensures Ids(s') == Ids(s)
    ensures KeepsInvariants(s, s')
  {
    if !IdExists(s, id) {
      s', next, outcome := s, at, Refused(NotFound);
    } else {
      s', next, outcome := EditFound(s, id, lines, at);
      EditResultKeeps(s, id, lines, at);
    }
  }

  /** The prompts of `updateStudent` once the record with `id` is found, reading
      from line `at`: the name line, then marks lines until one is accepted. The
      name is set before the marks are asked for, so running out of lines at the
      marks prompt leaves the new name in place. */
  method EditFound(s: Store, id: Int32, lines: seq<string>, at: nat) returns (s': Store, next: nat, outcome: Outcome)
    requires at <= |lines|
    requires id in Ids(s)
    ensures at <= next <= |lines| && !outcome.Refused?
    ensures (s', next, outcome) == EditResult(s, id, lines, at)
  {
    if at == |lines| {
      return s, at, OutOfInput;
    }
    var was := Find(s, id).value;
    var k := FindIndex(s, id).value;
    var name := Trim(lines[at]);
    var named := if |name| > 0 then was.SetName(name) else was;
    var marks, afterMarks := FirstAccepted(lines, at + 1, MarksPrompt(was.marks));
    if marks.None? {
      s', next, outcome := s[k := named], afterMarks, OutOfInput;
    } else {
      assert AcceptMarks(lines[afterMarks - 1], was.marks) == marks;
      s', next, outcome := s[k := named.SetMarks(marks.value)], afterMarks, Done;
    }
  }

  /** The store, next line and outcome the prompts after a found id give, reading
      from line `at`: the first record with `id` gets the trimmed name line when it
      is not empty, then the marks of the first acceptable marks line after it.
      `EditResultMeans` and `EditResultIsUpdate` state what this is. */
  function EditResult(s: Store, id: Int32, lines: seq<string>, at: nat): (Store, nat, Outcome)
    requires at <= |lines| && id in Ids(s)
  {
    if at == |lines| then (s, at, OutOfInput)
    else
      var was := Find(s, id).value;
      var k := FindIndex(s, id).value;
      var named := if |Trim(lines[at])| > 0 then was.SetName(Trim(lines[at])) else was;
      var m := FirstIndex(lines, at + 1, MarksPrompt(was.marks));
      if m == |lines| then (s[k := named], m, OutOfInput)
      else (s[k := named.SetMarks(AcceptMarks(lines[m], was.marks).value)], m + 1, Done)
  }

  /** The marks the prompts after a found id leave on its record: those of the
      first acceptable marks line after the name line, or the record's own marks
      when there is none. */
  function EditMarks(s: Store, id: Int32, lines: seq<string>, at: nat): Int32
    requires at < |lines| && id in Ids(s)
  {
    var was := Find(s, id).value;
    var m := FirstIndex(lines, at + 1, MarksPrompt(was.marks));
    if m == |lines| then was.marks else AcceptMarks(lines[m], was.marks).value
  }

  /** Once there is a name line, the record edited in place is the store's
      `Update` with the trimmed name line and `EditMarks`. */
  lemma EditResultIsUpdate(s: Store, id: Int32, lines: seq<string>, at: nat)
    requires at < |lines| && id in Ids(s)
    ensures Update(s, id, Trim(lines[at]), EditMarks(s, id, lines, at)) == Ok(EditResult(s, id, lines, at).0)
  {
  }

  /** The prompts after a found id end as `EditOutcome` says. */
  lemma EditResultMeans(s: Store, id: Int32, lines: seq<string>, at: nat)
    requires at <= |lines| && id in Ids(s)
    ensures var (t, next, outcome) := EditResult(s, id, lines, at);
      && at <= next <= |lines| && !outcome.Refused?
      && EditOutcome(s, id, lines, at, t, next, outcome)
  {
    if at < |lines| {
      if FirstIndex(lines, at + 1, MarksPrompt(Find(s, id).value.marks)) == |lines| {
        EditNameOnly(s, id, lines, at);
      } else {
        EditDone(s, id, lines, at);
      }
    }
  }

  /** When no marks line after the name line is acceptable, the lines run out with
      only the new name in place. */
  lemma EditNameOnly(s: Store, id: Int32, lines: seq<string>, at: nat)
    requires at < |lines| && id in Ids(s)
    requires FirstIndex(lines, at + 1, MarksPrompt(Find(s, id).value.marks)) == |lines|
    ensures EditResult(s, id, lines, at).1 == |lines| && EditResult(s, id, lines, at).2 == OutOfInput
    ensures NameOnlyFrom(s, id, lines, at, EditResult(s, id, lines, at).0)
  {
  }

  /** When some marks line after the name line is acceptable, the first one ends the
      prompts and the store is edited with both lines. */
  lemma EditDone(s: Store, id: Int32, lines: seq<string>, at: nat)
    requires at < |lines| && id in Ids(s)
    requires FirstIndex(lines, at + 1, MarksPrompt(Find(s, id).value.marks)) < |lines|
    ensures var m := FirstIndex(lines, at + 1, MarksPrompt(Find(s, id).value.marks));
      && EditResult(s, id, lines, at).1 == m + 1 && EditResult(s, id, lines, at).2 == Done
      && EditedFrom(s, id, lines, at, m + 1, EditResult(s, id, lines, at).0)
  {
    EditResultIsUpdate(s, id, lines, at);
  }

  /** The prompts after a found id keep every record in place with its id, and
      keep the store invariants. */
  lemma EditResultKeeps(s: Store, id: Int32, lines: seq<string>, at: nat)
    requires at <= |lines| && id in Ids(s)
    ensures var t := EditResult(s, id, lines, at).0;
      && |t| == |s| && (forall i :: 0 <= i < |s| ==> t[i].id == s[i].id)
      && Ids(t) == Ids(s)
      && KeepsInvariants(s, t)
  {
    if at < |lines| {
      EditResultIsUpdate(s, id, lines, at);
      UpdateKeepsMarksBound(s, id, Trim(lines[at]), EditMarks(s, id, lines, at));
      UpdateKeepsNames(s, id, Trim(lines[at]), EditMarks(s, id, lines, at));
    }
  }

  /** How the prompts after a found id end, reading from line `at`. They finish
      exactly when there is a name line and some later line is acceptable marks:
      the first such line ends them and the store is edited with both lines. When
      the lines run out after the name line, the new name is kept with the old
      marks; when they run out before it, nothing changes. */
  ghost predicate EditOutcome(s: Store, id: Int32, lines: seq<string>, at: nat, t: Store, next: nat, outcome: Outcome) {
    match outcome
    case Done =>
      && Find(s, id).Some? && at < |lines|
      && FirstIndex(lines, at + 1, MarksPrompt(Find(s, id).value.marks)) < |lines|
      && next == FirstIndex(lines, at + 1, MarksPrompt(Find(s, id).value.marks)) + 1
      && EditedFrom(s, id, lines, at, next, t)
    case OutOfInput =>
      && Find(s, id).Some? && at <= |lines| && next == |lines|
      && (at < |lines| ==>
            && FirstIndex(lines, at + 1, MarksPrompt(Find(s, id).value.marks)) == |lines|
            && NameOnlyFrom(s, id, lines, at, t))
      && (at == |lines| ==> t == s)
    case Refused(_) => false
  }

  /** `t` is the store after the name line `lines[at]` and the accepted marks line
      `lines[next - 1]` were applied to the record with `id`. */
  ghost predicate EditedFrom(s: Store, id: Int32, lines: seq<string>, at: nat, next: nat, t: Store) {
    && at < next <= |lines| && Find(s, id).Some?
    && AcceptMarks(lines[next - 1], Find(s, id).value.marks).Some?
    && Update(s, id, Trim(lines[at]), AcceptMarks(lines[next - 1], Find(s, id).value.marks).value) == Ok(t)
  }

  /** `t` is what `setName` leaves behind when the lines run out at the marks prompt:
      the first record with `id` renamed to the trimmed line `lines[at]` when that is
      not empty, and every other record, and its marks, as they were. */
  ghost predicate NameOnlyFrom(s: Store, id: Int32, lines: seq<string>, at: nat, t: Store) {
    && at < |lines| && FindIndex(s, id).Some?
    && var k := FindIndex(s, id).value;
       t == s[k := if |Trim(lines[at])| > 0 then s[k].SetName(Trim(lines[at])) else s[k]]
  }

  /** An update whose marks are in range or the record's own marks keeps the bound
      on every record's marks. */
  lemma UpdateKeepsMarksBound(s: Store, id: Int32, name: string, marks: Int32)
    requires Update(s, id, name, marks).Ok?
    requires 0 <= marks <= 100 || marks == Find(s, id).value.marks
    ensures MarksInRangeOr(s, ADD_DEFAULT_MARKS) ==> MarksInRangeOr(Update(s, id, name, marks).value, ADD_DEFAULT_MARKS)
  {
    if MarksInRangeOr(s, ADD_DEFAULT_MARKS) {
      var t := Update(s, id, name, marks).value;
      var k := FindIndex(s, id).value;
      forall st | st in t
        ensures 0 <= st.marks <= 100 || st.marks == ADD_DEFAULT_MARKS
      {
        var i :| 0 <= i < |t| && t[i] == st;
        if i == k {
          FindIndexSameIds(s, t, id);
          assert s[k] in s;
        } else {
          assert t[i] == s[i];
          assert s[i] in s;
        }
      }
    }
  }

  /** Partial-field update at the console: a blank name line keeps the name and a
      blank marks line keeps the marks; a non-blank answer replaces the field. */
  lemma UpdateFromLines(s: Store, id: Int32, nameLine: string, marksLine: string)
    requires id in Ids(s)
    requires AcceptMarks(marksLine, Find(s, id).value.marks).Some?
    ensures var was := Find(s, id).value;
      var r := Update(s, id, Trim(nameLine), AcceptMarks(marksLine, was.marks).value);
      && r.Ok? && Find(r.value, id).Some?
      && var now := Find(r.value, id).value;
         && now.id == id
         && now.name == (if IsBlank(nameLine) then was.name else Trim(nameLine))
         && now.marks == (if IsBlank(marksLine) then was.marks else ParseInt(Trim(marksLine)).value)
  {
    TrimEmptyIffBlank(nameLine);
  }

  /** `deleteStudent`, reading from line `at` on. An empty list is refused before
      any id is asked for; otherwise every record with the id is removed, and the
      action succeeds exactly when there was one. `idAt` is where the id prompt
      stopped: the accepted line, or `|lines|` when the lines ran out first. */
  method DeleteStudent(s: Store, lines: seq<string>, at: nat) returns (s': Store, next: nat, outcome: Outcome, idAt: nat)
    requires at <= |lines|
    ensures at <= next <= |lines|
    ensures outcome == Refused(NoRecords) <==> |s| == 0
    ensures outcome.Refused? ==> outcome.reason == (if |s| == 0 then NoRecords else NotFound)
    ensures |s| == 0 ==> next == at
    ensures outcome != Done ==> s' == s
    ensures |s| > 0 ==> idAt == FirstIndex(lines, at, AcceptId)
    ensures outcome == OutOfInput <==> |s| > 0 && idAt == |lines|
    ensures outcome == OutOfInput ==> next == |lines|
    ensures outcome != OutOfInput && |s| > 0 ==>
      && at <= idAt && next == idAt + 1 && AcceptId(lines[idAt]).Some?
      && (forall j :: at <= j < idAt ==> AcceptId(lines[j]).None?)
      && Delete(s, AcceptId(lines[idAt]).value) == (if outcome == Done then Ok(s') else Err(NotFound))
    ensures Ids(s') <= Ids(s)
    ensures KeepsInvariants(s, s')
  {
    if |s| == 0 {
      return s, at, Refused(NoRecords), at;
    }
    var id, afterId := FirstAccepted(lines, at, AcceptId);
    if id.None? {
      return s, afterId, OutOfInput, |lines|;
    }
    idAt := afterId - 1;
    assert AcceptId(lines[idAt]) == id;
    var r := Delete(s, id.value);
    if r.Ok? {
      s', next, outcome := r.value, afterId, Done;
    } else {
      s', next, outcome := s, afterId, Refused(r.error);
    }
  }

  /** The main loop: read a menu choice, run the action, repeat until choice 5 or
      until the lines run out. Viewing (choice 2) only prints. Saving after each
      change is file output and leaves the store as it is. Whatever the input, a
      store that starts with unique ids keeps them, every id that appears is above
      zero, every record's marks stay in 0..100 or at the add prompt's -1, and
      every record keeps a non-empty name. */
  method Run(s: Store, lines: seq<string>) returns (final: Store, exited: bool)
    ensures UniqueIds(s) ==> UniqueIds(final)
    ensures forall x :: x in Ids(final) - Ids(s) ==> x > 0
    ensures MarksInRangeOr(s, ADD_DEFAULT_MARKS) ==> MarksInRangeOr(final, ADD_DEFAULT_MARKS)
    ensures NamesNonEmpty(s) ==> NamesNonEmpty(final)
  {
    final, exited := s, false;
    var pos := 0;
    while !exited
      invariant pos <= |lines|
      invariant UniqueIds(s) ==> UniqueIds(final)
      invariant forall x :: x in Ids(final) - Ids(s) ==> x > 0
      invariant MarksInRangeOr(s, ADD_DEFAULT_MARKS) ==> MarksInRangeOr(final, ADD_DEFAULT_MARKS)
      invariant NamesNonEmpty(s) ==> NamesNonEmpty(final)
      decreases |lines| - pos, !exited
    {
      var choice, afterChoice := FirstAccepted(lines, pos, AcceptChoice);
      if choice.None? {
        return;
      }
      var outcome, next, idAt := Done, afterChoice, 0;
      ghost var before := final;
      if choice.value == 1 {
        var nameAt;
        final, next, outcome, idAt, nameAt := AddStudent(final, lines, afterChoice);
      } else if choice.value == 3 {
        final, next, outcome, idAt := UpdateStudent(final, lines, afterChoice);
      } else if choice.value == 4 {
        final, next, outcome, idAt := DeleteStudent(final, lines, afterChoice);
      } else if choice.value == 5 {
        exited := true;
      }
      forall x | x in Ids(final) - Ids(s) ensures x > 0 {
        if x !in Ids(before) {
          assert x in Ids(final) - Ids(before);
        } else {
          assert x in Ids(before) - Ids(s);
        }
      }
      if outcome == OutOfInput {
        return;
      }
      pos := next;
    }
  }
}
