/**
 * The endpoints that change the database, as methods of a ledger object
 * whose fields are the three tables and their key counters. Each method
 * makes the endpoint's checks in the endpoint's order, returns the error of
 * the first one that fails without touching any field (the rolled-back
 * transaction), and otherwise updates the fields in place. Each is proved to
 * agree with the step function of the same name in LedgerSpec and to keep
 * the tables well formed.
 */
module App {
  import opened Records
  import opened LedgerSpec

  /**
   * The body of the reset job's loop: every student is visited once and the
   * new sending balance is recorded among the session's pending changes.
   */
  method ComputeReset(students: map<int, Student>) returns (pending: map<int, Student>)
    ensures pending == ResetAll(students)
  {
    pending := students;
    var todo := students.Keys;
    while todo != {}
      invariant todo <= students.Keys
      invariant pending.Keys == students.Keys
      invariant forall k :: k in students && k !in todo ==> pending[k] == ResetSending(students[k])
      invariant forall k :: k in todo ==> pending[k] == students[k]
      decreases todo
    {
      EmptyOrHasMember(todo);
      var k :| k in todo;
      var carryOver := Min(pending[k].sendingCredits, CARRY_OVER_CAP);
      pending := pending[k := pending[k].(sendingCredits := MONTHLY_GRANT + carryOver)];
      todo := todo - {k};
    }
    assert forall k :: k in pending ==> pending[k] == ResetAll(students)[k];
  }

  /** A set with no member is the empty set. */
  lemma EmptyOrHasMember(keys: set<int>)
    ensures keys == {} || exists k :: k in keys
  {
    if forall k :: k !in keys {
      assert keys == {};
    }
  }

  class Ledger {
    var students: map<int, Student>
    var recognitions: seq<Recognition>
    var endorsements: seq<Endorsement>
    var nextStudentId: int
    var nextRecognitionId: int
    var nextEndorsementId: int

    ghost function State(): Store
      reads this
    {
      Store(students, recognitions, endorsements, nextStudentId, nextRecognitionId, nextEndorsementId)
    }

    ghost predicate Valid()
      reads this
    {
      WellFormed(State())
    }

    /** An empty database. */
    constructor ()
      ensures Valid() && State() == EMPTY_STORE
    {
      students, recognitions, endorsements := map[], [], [];
      nextStudentId, nextRecognitionId, nextEndorsementId := 1, 1, 1;
    }

    /** POST /students */
    method CreateStudent(username: Json<string>, email: Json<string>) returns (r: Result<Student>)
      requires Valid()
      modifies this
      ensures Valid()
      ensures Step(State(), r) == LedgerSpec.CreateStudent(old(State()), username, email)
    {
      CreateStudentPreservesWellFormed(State(), username, email);
      if username.Absent? || email.Absent? {
        return Err(Validation);
      }
      // A null value passes the presence check and fails the NOT NULL constraint.
      if username.Null? || email.Null? {
        return Err(Conflict);
      }
      if UsernameTaken(students, username.value) || EmailTaken(students, email.value) {
        return Err(Conflict);
      }
      var student := NewStudent(nextStudentId, username.value, email.value);
      students := students[student.id := student];
      nextStudentId := nextStudentId + 1;
      r := Ok(student);
    }

    /** POST /recognitions: the credit transfer. */
    method CreateRecognition(senderId: Json<int>, receiverId: Json<int>, credits: Json<int>, message: Json<string>)
      returns (r: Result<Recognition>)
      requires Valid()
      modifies this
      ensures Valid()
      ensures Step(State(), r) == LedgerSpec.CreateRecognition(old(State()), senderId, receiverId, credits, message)
    {
      ghost var step := LedgerSpec.CreateRecognition(State(), senderId, receiverId, credits, message);
      CreateRecognitionPreservesWellFormed(State(), senderId, receiverId, credits, message);
      if !(Truthy(senderId) && Truthy(receiverId) && Truthy(credits)) {
        return Err(Validation);
      }
      if credits.value <= 0 {
        return Err(Validation);
      }
      if senderId.value == receiverId.value {
        return Err(Validation);
      }
      if senderId.value !in students || receiverId.value !in students {
        return Err(NotFound);
      }
      var sender := students[senderId.value];
      var receiver := students[receiverId.value];
      if sender.sendingCredits < credits.value {
        return Err(InsufficientBalance);
      }
      students := students[senderId.value := sender.(sendingCredits := sender.sendingCredits - credits.value)];
      students := students[receiverId.value := receiver.(redeemableCredits := receiver.redeemableCredits + credits.value)];
      var recognition := Recognition(nextRecognitionId, Nullable(message), credits.value, senderId.value, receiverId.value);
      recognitions := recognitions + [recognition];
      nextRecognitionId := nextRecognitionId + 1;
      r := Ok(recognition);
      assert State() == step.store;
    }

    /** POST /endorsements */
    method CreateEndorsement(endorserId: Json<int>, recognitionId: Json<int>) returns (r: Result<Endorsement>)
      requires Valid()
      modifies this
      ensures Valid()
      ensures Step(State(), r) == LedgerSpec.CreateEndorsement(old(State()), endorserId, recognitionId)
    {
      CreateEndorsementPreservesWellFormed(State(), endorserId, recognitionId);
      if !(Truthy(endorserId) && Truthy(recognitionId)) {
        return Err(Validation);
      }
      if endorserId.value !in students || FindRecognition(recognitions, recognitionId.value).None? {
        return Err(NotFound);
      }
      // The unique constraint on (endorser_id, recognition_id) rejects a second row.
      if Endorsed(endorsements, endorserId.value, recognitionId.value) {
        return Err(Conflict);
      }
      var endorsement := Endorsement(nextEndorsementId, endorserId.value, recognitionId.value);
      endorsements := endorsements + [endorsement];
      nextEndorsementId := nextEndorsementId + 1;
      r := Ok(endorsement);
    }

    /** POST /redeem */
    method RedeemCredits(studentId: Json<int>, amount: Json<int>) returns (r: Result<Voucher>)
      requires Valid()
      modifies this
      ensures Valid()
      ensures Step(State(), r) == LedgerSpec.RedeemCredits(old(State()), studentId, amount)
    {
      RedeemCreditsPreservesWellFormed(State(), studentId, amount);
      if !(Truthy(studentId) && Truthy(amount)) {
        return Err(Validation);
      }
      if amount.value <= 0 {
        return Err(Validation);
      }
      if studentId.value !in students {
        return Err(NotFound);
      }
      var student := students[studentId.value];
      if student.redeemableCredits < amount.value {
        return Err(InsufficientBalance);
      }
      var voucherValue := amount.value * VOUCHER_RATE;
      students := students[studentId.value := student.(redeemableCredits := student.redeemableCredits - amount.value)];
      r := Ok(Voucher(voucherValue, students[studentId.value].redeemableCredits));
    }

    /**
     * The monthly reset job. The new balances are computed for every
     * student first and only become visible when the commit succeeds;
     * otherwise they are rolled back together.
     */
    method ResetMonthlyCredits(commitSucceeds: bool) returns (r: Result<nat>)
      requires Valid()
      modifies this
      ensures Valid()
      ensures Step(State(), r) == LedgerSpec.ResetMonthlyCredits(old(State()), commitSucceeds)
    {
      ResetMonthlyCreditsPreservesWellFormed(State(), commitSucceeds);
      var count := |students|;
      var pending := ComputeReset(students);
      if !commitSucceeds {
        return Err(Internal);
      }
      students := pending;
      r := Ok(count);
    }
  }

  /** A client: two students registered on an empty ledger. */
  method TwoStudents() returns (ledger: Ledger)
    ensures fresh(ledger) && ledger.Valid()
    ensures ledger.students.Keys == {1, 2}
    ensures ledger.students[1] == NewStudent(1, "x", "x@example.com")
    ensures ledger.students[2] == NewStudent(2, "y", "y@example.com")
    ensures ledger.recognitions == [] && ledger.endorsements == []
    ensures ledger.nextRecognitionId == 1 && ledger.nextEndorsementId == 1
  {
    ledger := new Ledger();
    var x := ledger.CreateStudent(Present("x"), Present("x@example.com"));
    assert x == Ok(NewStudent(1, "x", "x@example.com"));
    var y := ledger.CreateStudent(Present("y"), Present("y@example.com"));
    assert y == Ok(NewStudent(2, "y", "y@example.com"));
    assert ledger.students[1].username == "x";
    var again := ledger.CreateStudent(Present("x"), Present("other@example.com"));
    assert again == Err(Conflict);
  }

  /**
   * A client: one student sends 40 credits to the other, who redeems them
   * for a voucher of 200; the sender has nothing to redeem.
   */
  method SendThenRedeem()
  {
    var ledger := TwoStudents();
    var rec := ledger.CreateRecognition(Present(1), Present(2), Present(40), Present("thanks"));
    assert rec.Ok?;
    assert ledger.students[1].sendingCredits == 60 && ledger.students[2].redeemableCredits == 40;
    var byX := ledger.RedeemCredits(Present(1), Present(40));
    assert byX == Err(InsufficientBalance);
    var byY := ledger.RedeemCredits(Present(2), Present(40));
    assert byY == Ok(Voucher(200, 0));
  }

  /** A client: the same endorsement twice. */
  method EndorseTwice()
  {
    var ledger := TwoStudents();
    var rec := ledger.CreateRecognition(Present(1), Present(2), Present(40), Absent);
    assert rec.Ok? && ledger.recognitions[0].id == 1;
    var first := ledger.CreateEndorsement(Present(1), Present(1));
    assert first.Ok?;
    var second := ledger.CreateEndorsement(Present(1), Present(1));
    assert second == Err(Conflict);
  }
}
