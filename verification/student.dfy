/** One student record (`Student.java`): an id, a name and marks. The id is fixed at
    construction; only the name and the marks have setters. */
module StudentRecord {
  import opened Outcomes
  import opened JavaText

  datatype Student = Student(id: Int32, name: string, marks: Int32) {

    function GetId(): Int32 { id }

    function GetName(): string { name }

    function GetMarks(): Int32 { marks }

    /** `setName`: a new name, the same id and marks. */
    function SetName(newName: string): (r: Student)
      ensures r.GetName() == newName
      ensures r.GetId() == GetId() && r.GetMarks() == GetMarks()
    {
      this.(name := newName)
    }

    /** `setMarks`: new marks, the same id and name. */
    function SetMarks(newMarks: Int32): (r: Student)
      ensures r.GetMarks() == newMarks
      ensures r.GetId() == GetId() && r.GetName() == GetName()
    {
      this.(marks := newMarks)
    }

    /** `toString`: the one-line description of the record. */
    function ToString(): string {
      ID_LABEL + IntToString(id) + NAME_LABEL + name + MARKS_LABEL + IntToString(marks)
    }
  }

  const ID_LABEL := "ID: "
  const NAME_LABEL := ", Name: "
  const MARKS_LABEL := ", Marks: "

  /** The constructor: the getters hand back exactly what was passed in. */
  function New(id: Int32, name: string, marks: Int32): (s: Student)
    ensures s.GetId() == id && s.GetName() == name && s.GetMarks() == marks
  {
    Student(id, name, marks)
  }

  /** Everything a caller outside the class can do to an existing record. */
  datatype Mutation = SetNameTo(newName: string) | SetMarksTo(newMarks: Int32)

  function Apply(s: Student, m: Mutation): Student {
    match m
    case SetNameTo(n) => s.SetName(n)
    case SetMarksTo(k) => s.SetMarks(k)
  }

  /** The record after a series of setter calls, first to last. */
  function ApplyAll(s: Student, ms: seq<Mutation>): Student
    decreases |ms|
  {
    if |ms| == 0 then s else ApplyAll(Apply(s, ms[0]), ms[1..])
  }

  /** No series of setter calls changes a record's id. */
  lemma {:induction false} IdNeverChanges(s: Student, ms: seq<Mutation>)
    ensures ApplyAll(s, ms).GetId() == s.GetId()
    decreases |ms|
  {
    if |ms| > 0 {
      IdNeverChanges(Apply(s, ms[0]), ms[1..]);
    }
  }

  /** Reads a `toString` line back into a record. The id ends at the first comma,
      because the text of a number never holds one; the rest is split by
      `SplitMarks`. */
  function ParseDisplay(t: string): Option<Student> {
    if !(ID_LABEL <= t) then None
    else
      var rest := t[|ID_LABEL|..];
      var idText := PrefixBefore(rest, ',');
      var afterId := rest[|idText|..];
      if !(NAME_LABEL <= afterId) then None
      else
        match (ParseInt(idText), SplitMarks(afterId[|NAME_LABEL|..]))
        case (Some(id), Some((name, marks))) => Some(Student(id, name, marks))
        case _ => None
  }

  /** Splits `name, Marks: m` into the name and the marks. The marks start after
      the last space, because the text of a number never holds one. */
  function SplitMarks(body: string): Option<(string, Int32)> {
    var marksText := SuffixAfter(body, ' ');
    var front := body[..|body| - |marksText|];
    if |front| < |MARKS_LABEL| || front[|front| - |MARKS_LABEL|..] != MARKS_LABEL then None
    else
      match ParseInt(marksText)
      case Some(marks) => Some((front[..|front| - |MARKS_LABEL|], marks))
      case None => None
  }

  lemma SplitMarksJoin(name: string, marks: Int32)
    ensures SplitMarks(name + MARKS_LABEL + IntToString(marks)) == Some((name, marks))
  {
    var marksText := IntToString(marks);
    var body := name + MARKS_LABEL + marksText;
    assert ' ' !in marksText;
    SuffixAfterJoin(name + MARKS_LABEL, marksText, ' ');
    assert body[..|body| - |marksText|] == name + MARKS_LABEL;
    ParseIntToString(marks);
  }

  /** `toString` loses nothing: the record can be read back from its line. */
  lemma DisplayRoundTrip(s: Student)
    ensures ParseDisplay(s.ToString()) == Some(s)
  {
    var idText := IntToString(s.id);
    var tail := NAME_LABEL + (s.name + MARKS_LABEL + IntToString(s.marks));
    DisplayShape(s);
    IdTextEndsAtComma(s.id, tail);
    SplitMarksJoin(s.name, s.marks);
    ParseIntToString(s.id);
  }

  /** The line is the id label, the id's text, then the name and marks part. */
  lemma DisplayShape(s: Student)
    ensures var t := s.ToString();
      && ID_LABEL <= t
      && t[|ID_LABEL|..] == IntToString(s.id) + (NAME_LABEL + (s.name + MARKS_LABEL + IntToString(s.marks)))
  {
    var idText := IntToString(s.id);
    var tail := NAME_LABEL + (s.name + MARKS_LABEL + IntToString(s.marks));
    assert s.ToString() == ID_LABEL + (idText + tail);
    assert (ID_LABEL + (idText + tail))[|ID_LABEL|..] == idText + tail;
  }

  /** The id's text is cut off exactly at the comma that opens the name label. */
  lemma IdTextEndsAtComma(n: Int32, tail: string)
    requires NAME_LABEL <= tail
    ensures var rest := IntToString(n) + tail;
      PrefixBefore(rest, ',') == IntToString(n) && rest[|IntToString(n)|..] == tail
  {
    var idText := IntToString(n);
    assert ',' !in idText;
    PrefixBeforeJoin(idText, tail, ',');
    assert (idText + tail)[|idText|..] == tail;
  }
}
