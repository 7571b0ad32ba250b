/**
 * The three tables of the credit service (students, recognitions,
 * endorsements): their record shapes, column defaults, uniqueness
 * constraints and the cascade that removes a recognition's endorsements.
 */
module Records {

  datatype Option<T> = None | Some(value: T)

  /** A field of a JSON request body: missing, present as `null`, or present with a value. */
  datatype Json<T> = Absent | Null | Present(value: T)

  /**
   * Python truthiness of an integer read with `dict.get`: a missing field,
   * an explicit `null` and the number 0 are all falsy.
   */
  predicate Truthy(j: Json<int>)
  {
    j.Present? && j.value != 0
  }

  /** An optional text column: a missing or `null` field is stored as NULL. */
  function Nullable(j: Json<string>): Option<string>
  {
    if j.Present? then Some(j.value) else None
  }

  const DEFAULT_SENDING_CREDITS := 100
  const DEFAULT_REDEEMABLE_CREDITS := 0

  datatype Student = Student(
    id: int,
    username: string,
    email: string,
    redeemableCredits: int,
    sendingCredits: int)

  datatype Recognition = Recognition(
    id: int,
    message: Option<string>,
    credits: int,
    senderId: int,
    receiverId: int)

  datatype Endorsement = Endorsement(id: int, endorserId: int, recognitionId: int)

  /** A freshly inserted student row, with the column defaults filled in. */
  function NewStudent(id: int, username: string, email: string): (s: Student)
    ensures s.id == id && s.username == username && s.email == email
    ensures s.sendingCredits == DEFAULT_SENDING_CREDITS == 100
    ensures s.redeemableCredits == DEFAULT_REDEEMABLE_CREDITS == 0
  {
    Student(id, username, email, DEFAULT_REDEEMABLE_CREDITS, DEFAULT_SENDING_CREDITS)
  }

  /** The unique constraints on `username` and on `email`. */
  predicate UniqueAccounts(students: map<int, Student>)
  {
    forall a, b :: a in students && b in students && a != b ==>
      students[a].username != students[b].username && students[a].email != students[b].email
  }

  predicate UsernameTaken(students: map<int, Student>, username: string)
  {
    exists k :: k in students && students[k].username == username
  }

  predicate EmailTaken(students: map<int, Student>, email: string)
  {
    exists k :: k in students && students[k].email == email
  }

  /** Primary keys of a table in insertion order: each row's id exceeds every earlier one. */
  predicate IncreasingRecognitionIds(recs: seq<Recognition>)
  {
    forall i, j :: 0 <= i < j < |recs| ==> recs[i].id < recs[j].id
  }

  predicate IncreasingEndorsementIds(ends: seq<Endorsement>)
  {
    forall i, j :: 0 <= i < j < |ends| ==> ends[i].id < ends[j].id
  }

  predicate HasRecognition(recs: seq<Recognition>, id: int)
  {
    exists i :: 0 <= i < |recs| && recs[i].id == id
  }

  /** Lookup by primary key. */
  function FindRecognition(recs: seq<Recognition>, id: int): (r: Option<Recognition>)
    ensures r.None? <==> !HasRecognition(recs, id)
    ensures r.Some? ==> r.value in recs && r.value.id == id
  {
    if recs == [] then None
    else if recs[0].id == id then Some(recs[0])
    else
      var rest := FindRecognition(recs[1..], id);
      assert forall i :: 1 <= i < |recs| ==> recs[i] == recs[1..][i - 1];
      rest
  }

  /** Whether the pair (endorser, recognition) already has a row. */
  predicate Endorsed(ends: seq<Endorsement>, endorserId: int, recognitionId: int)
  {
    exists i :: 0 <= i < |ends| && ends[i].endorserId == endorserId && ends[i].recognitionId == recognitionId
  }

  /** The unique constraint `uq_endorsement` on (endorser_id, recognition_id). */
  predicate UniqueEndorsements(ends: seq<Endorsement>)
  {
    forall i, j :: 0 <= i < j < |ends| ==>
      ends[i].endorserId != ends[j].endorserId || ends[i].recognitionId != ends[j].recognitionId
  }

  /** The recognition table without the row whose key is `id`. */
  function DeleteRecognitionRow(recs: seq<Recognition>, id: int): (r: seq<Recognition>)
    ensures forall x :: x in r <==> x in recs && x.id != id
    ensures IncreasingRecognitionIds(recs) ==> IncreasingRecognitionIds(r)
  {
    if recs == [] then []
    else
      var rest := DeleteRecognitionRow(recs[1..], id);
      assert forall x :: x in recs <==> x == recs[0] || x in recs[1..];
      if recs[0].id == id then rest else [recs[0]] + rest
  }

  /** The endorsement table without the rows that point at recognition `id`. */
  function DeleteEndorsementsOf(ends: seq<Endorsement>, id: int): (r: seq<Endorsement>)
    ensures forall e :: e in r <==> e in ends && e.recognitionId != id
    ensures IncreasingEndorsementIds(ends) ==> IncreasingEndorsementIds(r)
  {
    if ends == [] then []
    else
      var rest := DeleteEndorsementsOf(ends[1..], id);
      assert forall x :: x in ends <==> x == ends[0] || x in ends[1..];
      if ends[0].recognitionId == id then rest else [ends[0]] + rest
  }

  /**
   * Deleting a recognition with `cascade="all, delete-orphan"`: the row goes
   * and every endorsement of it goes with it.
   */
  function DeleteRecognition(recs: seq<Recognition>, ends: seq<Endorsement>, id: int): (r: (seq<Recognition>, seq<Endorsement>))
    ensures !HasRecognition(r.0, id)
    ensures forall e :: e in r.1 ==> e.recognitionId != id
    ensures forall x :: x in recs && x.id != id ==> x in r.0
    ensures forall e :: e in ends && e.recognitionId != id ==> e in r.1
    ensures forall x :: x in r.0 ==> x in recs
    ensures forall e :: e in r.1 ==> e in ends
  {
    var recs' := DeleteRecognitionRow(recs, id);
    assert forall i :: 0 <= i < |recs'| ==> recs'[i] in recs';
    (recs', DeleteEndorsementsOf(ends, id))
  }
}
