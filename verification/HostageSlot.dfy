/** A logical device's slot in the registry: importing hostage blobs eagerly or lazily, reading the URI and signing.
    The registry calls are assumed to succeed.  What the TPM does is an arbitrary function. */
module HostageSlot {
  import opened ByteStrings

  type WString = seq<nat>

  type ErrorCode = c: nat | c > 0 witness 1

  const TPM_RC_FAILURE: ErrorCode := 0x101
  const E_INVALIDARG: ErrorCode := 0x8007_0057
  const ERROR_FILE_NOT_FOUND: ErrorCode := 2

  /** FIXED_HMAC_OBJECT_NAME_FOR_REGISTRY, "NoObjectName". */
  const NO_OBJECT_NAME: WString := [0x4e, 0x6f, 0x4f, 0x62, 0x6a, 0x65, 0x63, 0x74, 0x4e, 0x61, 0x6d, 0x65]

  /** What the TPM makes of a hostage blob: the protected key and the URI, or an error. */
  datatype Outcome = Accepted(hmacPublic: Bytes, hmacPrivate: Bytes, uri: WString) | Rejected(code: ErrorCode)

  datatype Tpm = Tpm(
    unwrap: Bytes -> Outcome,
    publicError: Bytes -> Option<ErrorCode>,
    privateError: Bytes -> Option<ErrorCode>,
    loadError: (Bytes, Bytes) -> Option<ErrorCode>,
    mac: (Bytes, Bytes, Bytes) -> Bytes,
    toUtf8: WString -> Bytes)

  /** A blob waiting in the registry, with the number of its delivery. */
  datatype Pending = Pending(blob: Bytes, delivery: nat)

  /** The values under the slot's key, whether the key exists, the two settings, and the deliveries whose blobs were
      handed to the TPM. */
  datatype State = State(
    useRegistry: Option<nat>,
    lazyLoadingEnabled: bool,
    present: bool,
    uri: Option<WString>,
    hmacPublic: Option<Bytes>,
    hmacPrivate: Option<Bytes>,
    hmacName: Option<WString>,
    hostageBlob: Option<Pending>,
    deliveries: nat,
    imported: seq<nat>)

  datatype Answer =
    Success | Uri(text: Bytes) | Signature(mac: Bytes) | Failure(code: ErrorCode) | Threw(code: ErrorCode)

  datatype Operation = Import(blob: Bytes) | ReadUri(capacity: nat) | Sign(data: Bytes)

  // ---- what the operations do

  /** LimpetImportHostageKeyEx: nothing is stored unless the TPM accepts the blob. */
  function Stored(tpm: Tpm, s: State, p: Pending): State {
    match tpm.unwrap(p.blob)
    case Rejected(_) => s.(imported := s.imported + [p.delivery])
    case Accepted(public, private, uri) =>
      s.(present := true, hmacPublic := Some(public), hmacPrivate := Some(private), hmacName := Some(NO_OBJECT_NAME),
         uri := Some(uri), imported := s.imported + [p.delivery])
  }

  function Code(o: Outcome): Option<ErrorCode> {
    if o.Rejected? then Some(o.code) else None
  }

  /** ImportHostageBlobIfPresent: the blob is deleted whether or not the TPM accepts it. */
  function Settle(tpm: Tpm, s: State): (State, Option<ErrorCode>) {
    if s.lazyLoadingEnabled && s.hostageBlob.Some? then
      (Stored(tpm, s, s.hostageBlob.value).(hostageBlob := None), Code(tpm.unwrap(s.hostageBlob.value.blob)))
    else (s, None)
  }

  /** What the slot answers to a read once nothing is pending. */
  function UriAnswer(tpm: Tpm, s: State, capacity: nat): Answer {
    if !s.present || s.uri.None? then Failure(TPM_RC_FAILURE)
    else
      var text := tpm.toUtf8(s.uri.value);
      if text == [] then Threw(TPM_RC_FAILURE)
      else if |text| + 1 > capacity then Failure(E_INVALIDARG)
      else Uri(text)
  }

  /** LimpetSignWithIdentityHmacKeyEx: a key the TPM refuses to load is removed. */
  function Signed(tpm: Tpm, s: State, data: Bytes): (State, Answer) {
    if s.hmacPublic.None? then (s, Failure(ERROR_FILE_NOT_FOUND))
    else if tpm.publicError(s.hmacPublic.value).Some? then (s, Failure(tpm.publicError(s.hmacPublic.value).value))
    else if s.hmacPrivate.None? then (s, Failure(ERROR_FILE_NOT_FOUND))
    else if tpm.privateError(s.hmacPrivate.value).Some? then (s, Failure(tpm.privateError(s.hmacPrivate.value).value))
    else
      match tpm.loadError(s.hmacPublic.value, s.hmacPrivate.value)
      case Some(code) => (Evicted(s), Failure(code))
      case None => (s, Signature(tpm.mac(s.hmacPublic.value, s.hmacPrivate.value, data)))
  }

  /** LimpetEvictHmacKey in registry mode. */
  function Evicted(s: State): State {
    s.(hostageBlob := if s.lazyLoadingEnabled then None else s.hostageBlob,
       hmacPublic := None, hmacPrivate := None, hmacName := None)
  }

  function Step(tpm: Tpm, s: State, op: Operation): (State, Answer) {
    match op
    case Import(blob) =>
      var p, counted := Pending(blob, s.deliveries), s.(deliveries := s.deliveries + 1);
      if s.lazyLoadingEnabled then (counted.(present := true, hostageBlob := Some(p)), Success)
      else
        (match tpm.unwrap(blob)
         case Rejected(code) => (Stored(tpm, counted, p), Failure(code))
         case Accepted(_, _, _) => (Stored(tpm, counted, p), Success))
    case ReadUri(capacity) =>
      (match Settle(tpm, s)
       case (t, Some(code)) => (t, Failure(code))
       case (t, None) => (t, UriAnswer(tpm, t, capacity)))
    case Sign(data) =>
      match Settle(tpm, s)
      case (t, Some(code)) => (t, Failure(code))
      case (t, None) => Signed(tpm, t, data)
  }

  function Run(tpm: Tpm, s: State, ops: seq<Operation>): (r: (State, seq<Answer>))
    ensures |r.1| == |ops|
    decreases |ops|
  {
    if ops == [] then (s, [])
    else
      var (t, answer) := Step(tpm, s, ops[0]);
      var (u, answers) := Run(tpm, t, ops[1..]);
      (u, [answer] + answers)
  }

  // ---- properties of runs

  /** The registry values that answers depend on. */
  predicate SameContents(s: State, t: State) {
    && s.present == t.present && s.uri == t.uri && s.hmacName == t.hmacName
    && s.hmacPublic == t.hmacPublic && s.hmacPrivate == t.hmacPrivate
  }

  /** A lazy slot stands for the eager slot that has already stored the blob that waits in it. */
  predicate StandsFor(tpm: Tpm, slow: State, eager: State) {
    && slow.lazyLoadingEnabled && !eager.lazyLoadingEnabled
    && slow.deliveries == eager.deliveries
    && match slow.hostageBlob
       case None => SameContents(slow, eager)
       case Some(p) => tpm.unwrap(p.blob).Accepted? && SameContents(Stored(tpm, slow, p), eager)
  }

  predicate AllAccepted(tpm: Tpm, ops: seq<Operation>) {
    forall i :: 0 <= i < |ops| && ops[i].Import? ==> tpm.unwrap(ops[i].blob).Accepted?
  }

  lemma StepsAgree(tpm: Tpm, slow: State, eager: State, op: Operation)
    requires StandsFor(tpm, slow, eager) && (op.Import? ==> tpm.unwrap(op.blob).Accepted?)
    ensures Step(tpm, slow, op).1 == Step(tpm, eager, op).1
    ensures StandsFor(tpm, Step(tpm, slow, op).0, Step(tpm, eager, op).0)
  {
  }

  /** Lazy loading refines eager import on blobs the TPM accepts, whatever the run, and on no other run: the import of
      a refused blob itself is answered differently. */
  lemma {:induction false} LazyRefinesEager(tpm: Tpm, slow: State, eager: State, ops: seq<Operation>)
    requires StandsFor(tpm, slow, eager)
    ensures Run(tpm, slow, ops).1 == Run(tpm, eager, ops).1 <==> AllAccepted(tpm, ops)
    ensures AllAccepted(tpm, ops) ==> StandsFor(tpm, Run(tpm, slow, ops).0, Run(tpm, eager, ops).0)
    decreases |ops|
  {
    hide Step, StandsFor, AllAccepted;
    AcceptedOneByOne(tpm, ops);
    if ops != [] {
      RunFirst(tpm, slow, ops[0], ops[1..]);
      RunFirst(tpm, eager, ops[0], ops[1..]);
      assert ops == [ops[0]] + ops[1..];
      if ops[0].Import? && tpm.unwrap(ops[0].blob).Rejected? {
        RefusalIsAnswered(tpm, slow, eager, ops[0]);
        assert Run(tpm, slow, ops).1[0] != Run(tpm, eager, ops).1[0];
      } else {
        StepsAgree(tpm, slow, eager, ops[0]);
        var slow', eager' := Step(tpm, slow, ops[0]).0, Step(tpm, eager, ops[0]).0;
        LazyRefinesEager(tpm, slow', eager', ops[1..]);
        SameAfterTheFirst(Step(tpm, slow, ops[0]).1, Run(tpm, slow', ops[1..]).1, Run(tpm, eager', ops[1..]).1);
      }
    }
  }

  lemma SameAfterTheFirst(first: Answer, a: seq<Answer>, b: seq<Answer>)
    ensures [first] + a == [first] + b <==> a == b
  {
    assert ([first] + a)[1..] == a && ([first] + b)[1..] == b;
  }

  lemma AcceptedOneByOne(tpm: Tpm, ops: seq<Operation>)
    ensures ops == [] ==> AllAccepted(tpm, ops)
    ensures ops != [] ==>
      (AllAccepted(tpm, ops) <==>
         (ops[0].Import? ==> tpm.unwrap(ops[0].blob).Accepted?) && AllAccepted(tpm, ops[1..]))
  {
    if ops != [] {
      assert ops == [ops[0]] + ops[1..];
    }
  }

  /** The first answer of a run, and the others. */
  lemma RunFirst(tpm: Tpm, s: State, op: Operation, rest: seq<Operation>)
    ensures Run(tpm, s, [op] + rest).0 == Run(tpm, Step(tpm, s, op).0, rest).0
    ensures Run(tpm, s, [op] + rest).1 == [Step(tpm, s, op).1] + Run(tpm, Step(tpm, s, op).0, rest).1
  {
    hide Step;
    assert ([op] + rest)[1..] == rest;
  }

  lemma RefusalIsAnswered(tpm: Tpm, slow: State, eager: State, op: Operation)
    requires StandsFor(tpm, slow, eager)
    requires op.Import? && tpm.unwrap(op.blob).Rejected?
    ensures Step(tpm, slow, op).1 != Step(tpm, eager, op).1
  {
  }

  // ---- where a refused blob waits

  /** The next read agrees with an eager slot, whatever that slot holds, exactly where it fails with the code of the
      refusal: there is no key or URI, or its text does not fit the caller's buffer. */
  lemma ReadsAgreeExactlyWhenAccepted(tpm: Tpm, slow: State, eager: State, capacity: nat)
    requires slow.lazyLoadingEnabled && !eager.lazyLoadingEnabled && slow.hostageBlob.Some?
    requires tpm.unwrap(slow.hostageBlob.value.blob).Accepted? ==> StandsFor(tpm, slow, eager)
    ensures var outcome, op := tpm.unwrap(slow.hostageBlob.value.blob), ReadUri(capacity);
      Step(tpm, slow, op).1 == Step(tpm, eager, op).1 <==>
        || outcome.Accepted?
        || (outcome.code == TPM_RC_FAILURE && (!eager.present || eager.uri.None?))
        || (outcome.code == E_INVALIDARG && eager.present && eager.uri.Some? &&
            0 < |tpm.toUtf8(eager.uri.value)| && capacity < |tpm.toUtf8(eager.uri.value)| + 1)
  {
    if tpm.unwrap(slow.hostageBlob.value.blob).Accepted? {
      StepsAgree(tpm, slow, eager, ReadUri(capacity));
    }
  }

  /** And a signature where the key is missing in part, unreadable, or does not load, with the same code. */
  lemma SignaturesAgreeExactlyWhenAccepted(tpm: Tpm, slow: State, eager: State, data: Bytes)
    requires slow.lazyLoadingEnabled && !eager.lazyLoadingEnabled && slow.hostageBlob.Some?
    requires tpm.unwrap(slow.hostageBlob.value.blob).Accepted? ==> StandsFor(tpm, slow, eager)
    ensures var outcome, op := tpm.unwrap(slow.hostageBlob.value.blob), Sign(data);
      var (public, private) := (eager.hmacPublic, eager.hmacPrivate);
      Step(tpm, slow, op).1 == Step(tpm, eager, op).1 <==>
        || outcome.Accepted?
        || (outcome.code == ERROR_FILE_NOT_FOUND && public.None?)
        || (public.Some? && tpm.publicError(public.value) == Some(outcome.code))
        || (outcome.code == ERROR_FILE_NOT_FOUND && PublicReads(tpm, public) && private.None?)
        || (PublicReads(tpm, public) && private.Some? && tpm.privateError(private.value) == Some(outcome.code))
        || (PublicReads(tpm, public) && private.Some? && tpm.privateError(private.value).None? &&
            tpm.loadError(public.value, private.value) == Some(outcome.code))
  {
    if tpm.unwrap(slow.hostageBlob.value.blob).Accepted? {
      StepsAgree(tpm, slow, eager, Sign(data));
    }
  }

  /** The answers to reads and signatures, without those to imports. */
  function Answered(ops: seq<Operation>, answers: seq<Answer>): seq<Answer>
    requires |ops| == |answers|
  {
    if ops == [] then []
    else (if ops[0].Import? then [] else [answers[0]]) + Answered(ops[1..], answers[1..])
  }

  ghost predicate DeliversOnly(ops: seq<Operation>, blobs: iset<Bytes>) {
    forall i :: 0 <= i < |ops| && ops[i].Import? ==> ops[i].blob in blobs
  }

  /** Values are stored under the key, and the key with its URI. */
  predicate ValuesTogether(s: State) {
    (s.uri.Some? ==> s.present) && (s.hmacPublic.Some? ==> s.uri.Some?)
  }

  lemma {:induction false} ValuesStayTogether(tpm: Tpm, s: State, ops: seq<Operation>)
    requires ValuesTogether(s)
    ensures ValuesTogether(Run(tpm, s, ops).0)
    decreases |ops|
  {
    hide Step, ValuesTogether;
    if ops != [] {
      StepKeepsValuesTogether(tpm, s, ops[0]);
      ValuesStayTogether(tpm, Step(tpm, s, ops[0]).0, ops[1..]);
    }
  }

  lemma StepKeepsValuesTogether(tpm: Tpm, s: State, op: Operation)
    requires ValuesTogether(s)
    ensures ValuesTogether(Step(tpm, s, op).0)
  {
  }

  /** Even if only reads and signatures are compared: lazy loading and eager import answer every run alike over a
      collection of blobs exactly if the TPM accepts each of these. */
  lemma ReadsAndSignaturesAgreeExactly(tpm: Tpm, slow: State, eager: State, blobs: iset<Bytes>)
    requires StandsFor(tpm, slow, eager) && ValuesTogether(eager)
    ensures
      (forall ops :: DeliversOnly(ops, blobs) ==>
        Answered(ops, Run(tpm, slow, ops).1) == Answered(ops, Run(tpm, eager, ops).1)) <==>
      forall b :: b in blobs ==> tpm.unwrap(b).Accepted?
  {
    hide Run, Answered, StandsFor, ValuesTogether;
    if forall b :: b in blobs ==> tpm.unwrap(b).Accepted? {
      forall ops | DeliversOnly(ops, blobs)
        ensures Answered(ops, Run(tpm, slow, ops).1) == Answered(ops, Run(tpm, eager, ops).1)
      {
        LazyRefinesEager(tpm, slow, eager, ops);
      }
    } else {
      var b :| b in blobs && tpm.unwrap(b).Rejected?;
      var op := OperationThatTells(tpm, slow, eager, b);
      var ops := [Import(b), op];
      assert DeliversOnly(ops, blobs);
    }
  }

  /** A refused blob shows in a read if the slot has a URI, and otherwise in a read or in a signature, which then fail
      with different codes. */
  lemma OperationThatTells(tpm: Tpm, slow: State, eager: State, b: Bytes) returns (op: Operation)
    requires StandsFor(tpm, slow, eager) && ValuesTogether(eager) && tpm.unwrap(b).Rejected?
    ensures !op.Import?
    ensures Answered([Import(b), op], Run(tpm, slow, [Import(b), op]).1) !=
      Answered([Import(b), op], Run(tpm, eager, [Import(b), op]).1)
  {
    hide StandsFor;
    var code := tpm.unwrap(b).code;
    if eager.uri.Some? {
      op := ReadUri(|tpm.toUtf8(eager.uri.value)| + 1);
    } else if code != TPM_RC_FAILURE {
      op := ReadUri(0);
    } else {
      op := Sign([]);
    }
    TellsApart(tpm, slow, eager, b, op);
    TwoOperations(tpm, slow, b, op);
    TwoOperations(tpm, eager, b, op);
  }

  lemma TellsApart(tpm: Tpm, slow: State, eager: State, b: Bytes, op: Operation)
    requires StandsFor(tpm, slow, eager) && ValuesTogether(eager) && tpm.unwrap(b).Rejected?
    requires match op
      case Import(_) => false
      case ReadUri(capacity) =>
        if eager.uri.Some? then capacity > |tpm.toUtf8(eager.uri.value)| else tpm.unwrap(b).code != TPM_RC_FAILURE
      case Sign(_) => eager.uri.None? && tpm.unwrap(b).code != ERROR_FILE_NOT_FOUND
    ensures Step(tpm, Step(tpm, slow, Import(b)).0, op).1 != Step(tpm, Step(tpm, eager, Import(b)).0, op).1
  {
    var s, e := Step(tpm, slow, Import(b)).0, Step(tpm, eager, Import(b)).0;
    match op {
      case ReadUri(capacity) => ReadsAgreeExactlyWhenAccepted(tpm, s, e, capacity);
      case Sign(data) => SignaturesAgreeExactlyWhenAccepted(tpm, s, e, data);
      case Import(_) => assert false;
    }
  }

  lemma TwoOperations(tpm: Tpm, s: State, b: Bytes, op: Operation)
    requires !op.Import?
    ensures Answered([Import(b), op], Run(tpm, s, [Import(b), op]).1) == [Step(tpm, Step(tpm, s, Import(b)).0, op).1]
  {
    hide Step;
    var t := Step(tpm, s, Import(b)).0;
    assert [Import(b), op] == [Import(b)] + ([op] + []);
    RunFirst(tpm, s, Import(b), [op] + []);
    RunFirst(tpm, t, op, []);
    var answers := Run(tpm, s, [Import(b), op]).1;
    assert answers == [Step(tpm, s, Import(b)).1, Step(tpm, t, op).1];
    AnsweredFirst(Import(b), [op], answers[0], [answers[1]]);
    AnsweredFirst(op, [], answers[1], []);
    assert [Import(b)] + [op] == [Import(b), op] && [op] + [] == [op];
    assert [answers[0]] + [answers[1]] == answers && [answers[1]] + [] == [answers[1]];
  }

  lemma AnsweredFirst(op: Operation, rest: seq<Operation>, answer: Answer, answers: seq<Answer>)
    requires |rest| == |answers|
    ensures Answered([op] + rest, [answer] + answers) == (if op.Import? then [] else [answer]) + Answered(rest, answers)
  {
    assert ([op] + rest)[1..] == rest && ([answer] + answers)[1..] == answers;
  }

  predicate PublicReads(tpm: Tpm, public: Option<Bytes>) {
    public.Some? && tpm.publicError(public.value).None?
  }

  /** What the answers of a run depend on: neither the delivery numbers, nor whether a key without values exists. */
  predicate SameView(s: State, t: State) {
    && s.lazyLoadingEnabled == t.lazyLoadingEnabled
    && s.uri == t.uri && (s.uri.Some? ==> s.present == t.present)
    && s.hmacPublic == t.hmacPublic && s.hmacPrivate == t.hmacPrivate
    && match (s.hostageBlob, t.hostageBlob)
       case (Some(p), Some(q)) => p.blob == q.blob && s.present == t.present
       case (None, None) => true
       case _ => false
  }

  lemma {:induction false} AnswersDependOnTheView(tpm: Tpm, s: State, t: State, ops: seq<Operation>)
    requires SameView(s, t)
    ensures Run(tpm, s, ops).1 == Run(tpm, t, ops).1
    decreases |ops|
  {
    hide Step, SameView;
    if ops != [] {
      StepKeepsTheView(tpm, s, t, ops[0]);
      AnswersDependOnTheView(tpm, Step(tpm, s, ops[0]).0, Step(tpm, t, ops[0]).0, ops[1..]);
    }
  }

  lemma StepKeepsTheView(tpm: Tpm, s: State, t: State, op: Operation)
    requires SameView(s, t)
    ensures SameView(Step(tpm, s, op).0, Step(tpm, t, op).0) && Step(tpm, s, op).1 == Step(tpm, t, op).1
  {
    SettlingKeepsTheView(tpm, s, t);
    hide Settle;
  }

  lemma SettlingKeepsTheView(tpm: Tpm, s: State, t: State)
    requires SameView(s, t)
    ensures SameView(Settle(tpm, s).0, Settle(tpm, t).0) && Settle(tpm, s).1 == Settle(tpm, t).1
  {
  }

  /** A refused blob costs one failed read or signature: everything after that is answered as if it had never come.
      (Values are stored under the key, so there are none without it.) */
  lemma RefusalsCostOneAnswer(tpm: Tpm, s: State, blob: Bytes, op: Operation, rest: seq<Operation>)
    requires s.lazyLoadingEnabled && s.hostageBlob.None? && (s.uri.Some? ==> s.present)
    requires tpm.unwrap(blob).Rejected? && !op.Import?
    ensures Run(tpm, s, [Import(blob)] + ([op] + rest)).1 ==
      [Success] + ([Failure(tpm.unwrap(blob).code)] + Run(tpm, s, rest).1)
  {
    hide SameView;
    RunFirst(tpm, s, Import(blob), [op] + rest);
    var t := Step(tpm, s, Import(blob)).0;
    RunFirst(tpm, t, op, rest);
    RefusedAnswer(tpm, s, blob, op);
    AnswersDependOnTheView(tpm, s, Step(tpm, t, op).0, rest);
  }

  lemma RefusedAnswer(tpm: Tpm, s: State, blob: Bytes, op: Operation)
    requires s.lazyLoadingEnabled && s.hostageBlob.None? && (s.uri.Some? ==> s.present)
    requires tpm.unwrap(blob).Rejected? && !op.Import?
    ensures var (t, answer) := Step(tpm, Step(tpm, s, Import(blob)).0, op);
      SameView(s, t) && answer == Failure(tpm.unwrap(blob).code)
  {
  }

  /** It costs more where a delivery was still waiting: that one never reaches the TPM, though it may have accepted
      it. */
  lemma RefusalsLoseTheDeliveryBefore(tpm: Tpm, s: State, before: Bytes, blob: Bytes, op: Operation)
    requires s.lazyLoadingEnabled && tpm.unwrap(blob).Rejected? && !op.Import?
    ensures var t := Run(tpm, s, [Import(before)] + ([Import(blob)] + ([op] + []))).0;
      SameContents(t, s.(present := true)) && t.imported == s.imported + [s.deliveries + 1]
  {
    RunFirst(tpm, s, Import(before), [Import(blob)] + ([op] + []));
    var t := Step(tpm, s, Import(before)).0;
    RunFirst(tpm, t, Import(blob), [op] + []);
    RunFirst(tpm, Step(tpm, t, Import(blob)).0, op, []);
  }

  /** A slot with a URI, to which a blob is delivered that the TPM refuses: the eager read answers, the lazy one
      fails. */
  lemma RefusedBlobsTellLazyFromEager()
    ensures exists tpm, slow: State, eager, op ::
      && SameContents(slow, eager) && slow == eager.(lazyLoadingEnabled := true)
      && Run(tpm, slow, [Import([]), op]).1[1] != Run(tpm, eager, [Import([]), op]).1[1]
  {
    var tpm := Tpm(_ => Rejected(TPM_RC_FAILURE), _ => None, _ => None, (_, _) => None, (_, _, _) => [], _ => [0x61]);
    var eager := State(Some(1), false, true, Some([0x61]), None, None, None, None, 0, []);
    var slow := eager.(lazyLoadingEnabled := true);
    var op := ReadUri(2);
    var ops := [Import([]), op];
    assert ops[1..] == [op] && ops[1..][1..] == [];
    var s1, e1 := Step(tpm, slow, ops[0]).0, Step(tpm, eager, ops[0]).0;
    assert Run(tpm, slow, ops).1[1] == Step(tpm, s1, op).1 == Failure(TPM_RC_FAILURE);
    assert Run(tpm, eager, ops).1[1] == Step(tpm, e1, op).1 == Uri([0x61]);
  }

  /** Deliveries reach the TPM in the order they came, none twice, and none after a later one was delivered. */
  predicate ImportedInOrder(s: State) {
    && AscendingBelow(s.imported, if s.hostageBlob.Some? then s.hostageBlob.value.delivery else s.deliveries)
    && (s.hostageBlob.Some? ==> s.lazyLoadingEnabled && s.hostageBlob.value.delivery < s.deliveries)
  }

  predicate AscendingBelow(numbers: seq<nat>, bound: nat) {
    && (forall i, j :: 0 <= i < j < |numbers| ==> numbers[i] < numbers[j])
    && (forall i :: 0 <= i < |numbers| ==> numbers[i] < bound)
  }

  lemma OneMoreNumber(numbers: seq<nat>, bound: nat, later: nat)
    requires AscendingBelow(numbers, bound) && bound < later
    ensures AscendingBelow(numbers, later) && AscendingBelow(numbers + [bound], later)
  {
  }

  lemma {:induction false} RunKeeps(tpm: Tpm, s: State, ops: seq<Operation>)
    requires ImportedInOrder(s)
    ensures ImportedInOrder(Run(tpm, s, ops).0)
    ensures Run(tpm, s, ops).0.useRegistry == s.useRegistry
    ensures Run(tpm, s, ops).0.lazyLoadingEnabled == s.lazyLoadingEnabled
    decreases |ops|
  {
    hide Step, ImportedInOrder;
    if ops != [] {
      StepKeeps(tpm, s, ops[0]);
      RunKeeps(tpm, Step(tpm, s, ops[0]).0, ops[1..]);
    }
  }

  lemma StepKeeps(tpm: Tpm, s: State, op: Operation)
    requires ImportedInOrder(s)
    ensures ImportedInOrder(Step(tpm, s, op).0)
    ensures Step(tpm, s, op).0.useRegistry == s.useRegistry
    ensures Step(tpm, s, op).0.lazyLoadingEnabled == s.lazyLoadingEnabled
  {
    hide AscendingBelow;
    if s.hostageBlob.Some? {
      OneMoreNumber(s.imported, s.hostageBlob.value.delivery, s.deliveries);
      OneMoreNumber(s.imported, s.hostageBlob.value.delivery, s.deliveries + 1);
    } else {
      OneMoreNumber(s.imported, s.deliveries, s.deliveries + 1);
    }
  }

  /** With lazy loading a blob waits exactly after runs that end with an import, and it is the one delivered last. */
  lemma {:induction false} WaitsExactlyAfterAnImport(tpm: Tpm, s: State, ops: seq<Operation>)
    requires s.lazyLoadingEnabled && ops != []
    ensures var t, last := Run(tpm, s, ops).0, ops[|ops| - 1];
      && (t.hostageBlob.Some? <==> last.Import?)
      && (last.Import? ==> t.deliveries > 0 && t.hostageBlob == Some(Pending(last.blob, t.deliveries - 1)))
    decreases |ops|
  {
    hide Step;
    OneOperation(tpm, s, ops[0]);
    if |ops| > 1 {
      WaitsExactlyAfterAnImport(tpm, Step(tpm, s, ops[0]).0, ops[1..]);
    }
  }

  lemma OneOperation(tpm: Tpm, s: State, op: Operation)
    requires s.lazyLoadingEnabled
    ensures var t := Step(tpm, s, op).0;
      && t.lazyLoadingEnabled
      && (t.hostageBlob.Some? <==> op.Import?)
      && (op.Import? ==> t.deliveries > 0 && t.hostageBlob == Some(Pending(op.blob, t.deliveries - 1)))
  {
  }

  // ---- keys the TPM refuses to load

  predicate NoImports(ops: seq<Operation>) {
    forall i :: 0 <= i < |ops| ==> !ops[i].Import?
  }

  /** What a slot without a key answers until a blob is delivered. */
  function AnswerWithoutKey(tpm: Tpm, s: State, op: Operation): Answer
    requires !op.Import?
  {
    match op
    case ReadUri(capacity) => UriAnswer(tpm, s, capacity)
    case Sign(_) => Failure(ERROR_FILE_NOT_FOUND)
  }

  /** An evicted slot keeps answering reads as before and has no key for any signature, until the next import. */
  lemma {:induction false} EvictedSlotsOnlyRead(tpm: Tpm, s: State, ops: seq<Operation>)
    requires NoImports(ops)
    ensures Run(tpm, Evicted(s), ops).0 == Evicted(s)
    ensures forall i :: 0 <= i < |ops| ==> Run(tpm, Evicted(s), ops).1[i] == AnswerWithoutKey(tpm, s, ops[i])
    decreases |ops|
  {
    hide Evicted, Step, AnswerWithoutKey;
    if ops != [] {
      var answers := Run(tpm, Evicted(s), ops).1;
      EvictedStep(tpm, s, ops[0]);
      EvictedSlotsOnlyRead(tpm, s, ops[1..]);
      assert answers == [AnswerWithoutKey(tpm, s, ops[0])] + Run(tpm, Evicted(s), ops[1..]).1;
    }
  }

  lemma EvictedStep(tpm: Tpm, s: State, op: Operation)
    requires !op.Import?
    ensures Step(tpm, Evicted(s), op) == (Evicted(s), AnswerWithoutKey(tpm, s, op))
  {
  }

  /** The key is read from the registry, and the TPM does not load it. */
  predicate DoesNotLoad(tpm: Tpm, s: State, code: ErrorCode) {
    && PublicReads(tpm, s.hmacPublic) && s.hmacPrivate.Some? && tpm.privateError(s.hmacPrivate.value).None?
    && tpm.loadError(s.hmacPublic.value, s.hmacPrivate.value) == Some(code)
  }

  /** A signature that fails because the TPM does not load the key removes it: no later signature tries it again, and
      reads answer as before. */
  lemma KeysThatDoNotLoadAreTriedOnce(tpm: Tpm, s: State, code: ErrorCode, data: Bytes, ops: seq<Operation>)
    requires !s.lazyLoadingEnabled || s.hostageBlob.None?
    requires DoesNotLoad(tpm, s, code) && NoImports(ops)
    ensures var (t, answers) := Run(tpm, s, [Sign(data)] + ops);
      && t.hmacPublic.None? && t.hmacPrivate.None? && t.uri == s.uri && answers[0] == Failure(code)
      && forall i :: 0 <= i < |ops| ==> answers[i + 1] == AnswerWithoutKey(tpm, s, ops[i])
  {
    hide AnswerWithoutKey, Step, NoImports, DoesNotLoad;
    RunFirst(tpm, s, Sign(data), ops);
    EvictedBySignature(tpm, s, code, data);
    EvictedSlotsOnlyRead(tpm, s, ops);
  }

  lemma EvictedBySignature(tpm: Tpm, s: State, code: ErrorCode, data: Bytes)
    requires !s.lazyLoadingEnabled || s.hostageBlob.None?
    requires DoesNotLoad(tpm, s, code)
    ensures Step(tpm, s, Sign(data)) == (Evicted(s), Failure(code))
  {
  }

  // ---- the operations as they change the registry

  class Slot {
    const tpm: Tpm
    var useRegistry: Option<nat>
    var lazyLoadingEnabled: bool
    var present: bool
    var uri: Option<WString>
    var hmacPublic: Option<Bytes>
    var hmacPrivate: Option<Bytes>
    var hmacName: Option<WString>
    var hostageBlob: Option<Pending>
    var deliveries: nat
    var imported: seq<nat>

    /** An empty slot. */
    constructor (tpm: Tpm, useRegistry: Option<nat>, lazyLoadingEnabled: bool)
      ensures this.tpm == tpm
      ensures Values() == State(useRegistry, lazyLoadingEnabled, false, None, None, None, None, None, 0, [])
    {
      this.tpm := tpm;
      this.useRegistry, this.lazyLoadingEnabled, present := useRegistry, lazyLoadingEnabled, false;
      uri, hmacPublic, hmacPrivate, hmacName, hostageBlob := None, None, None, None, None;
      deliveries, imported := 0, [];
    }

    function Values(): State
      reads this
    {
      State(useRegistry, lazyLoadingEnabled, present, uri, hmacPublic, hmacPrivate, hmacName, hostageBlob, deliveries,
            imported)
    }

    /** The choice is made once, by trying the TPM's storage, and then kept. */
    method UseRegistry(tpmStorageWorks: bool) returns (use: bool)
      modifies this`useRegistry
      ensures useRegistry == if old(useRegistry).Some? then old(useRegistry) else Some(if tpmStorageWorks then 0 else 1)
      ensures use <==> useRegistry == Some(1)
    {
      if useRegistry.Some? {
        return useRegistry.value == 1;
      }
      useRegistry := Some(if tpmStorageWorks then 0 else 1);
      use := !tpmStorageWorks;
    }

    method LimpetImportHostageKeyEx(p: Pending) returns (error: Option<ErrorCode>)
      modifies this
      ensures Values() == Stored(tpm, old(Values()), p) && error == Code(tpm.unwrap(p.blob))
    {
      imported := imported + [p.delivery];
      match tpm.unwrap(p.blob) {
        case Rejected(code) => return Some(code);
        case Accepted(publicArea, privateArea, uriInfo) =>
          hmacPublic := Some(publicArea);
          hmacPrivate := Some(privateArea);
          hmacName := Some(NO_OBJECT_NAME);
          uri := Some(uriInfo);
          present := true;
          return None;
      }
    }

    method LimpetImportHostageKey(blob: Bytes) returns (answer: Answer)
      requires useRegistry == Some(1)
      modifies this
      ensures (Values(), answer) == Step(tpm, old(Values()), Import(blob))
    {
      var p := Pending(blob, deliveries);
      deliveries := deliveries + 1;
      if lazyLoadingEnabled {
        hostageBlob := Some(p);
        present := true;
        return Success;
      }
      var error := LimpetImportHostageKeyEx(p);
      answer := if error.Some? then Failure(error.value) else Success;
    }

    method ImportHostageBlobIfPresent() returns (error: Option<ErrorCode>)
      requires useRegistry == Some(1)
      modifies this
      ensures (Values(), error) == Settle(tpm, old(Values()))
    {
      error := None;
      if lazyLoadingEnabled && hostageBlob.Some? {
        error := LimpetImportHostageKeyEx(hostageBlob.value);
        hostageBlob := None;
      }
    }

    method LimpetReadURI(capacity: nat) returns (answer: Answer)
      requires useRegistry == Some(1)
      modifies this
      ensures (Values(), answer) == Step(tpm, old(Values()), ReadUri(capacity))
    {
      var error := ImportHostageBlobIfPresent();
      if error.Some? {
        return Failure(error.value);
      }
      if !present || uri.None? {
        return Failure(TPM_RC_FAILURE);
      }
      var text := tpm.toUtf8(uri.value);
      if text == [] {
        return Threw(TPM_RC_FAILURE);
      }
      if |text| + 1 > capacity {
        return Failure(E_INVALIDARG);
      }
      answer := Uri(text);
    }

    method LimpetEvictHmacKey()
      requires useRegistry == Some(1)
      modifies this
      ensures Values() == Evicted(old(Values()))
    {
      if lazyLoadingEnabled && hostageBlob.Some? {
        hostageBlob := None;
      }
      hmacPublic, hmacPrivate, hmacName := None, None, None;
    }

    method LimpetSignWithIdentityHmacKey(data: Bytes) returns (answer: Answer)
      requires useRegistry == Some(1)
      modifies this
      ensures (Values(), answer) == Step(tpm, old(Values()), Sign(data))
    {
      var error := ImportHostageBlobIfPresent();
      if error.Some? {
        return Failure(error.value);
      }
      if hmacPublic.None? {
        return Failure(ERROR_FILE_NOT_FOUND);
      }
      error := tpm.publicError(hmacPublic.value);
      if error.Some? {
        return Failure(error.value);
      }
      if hmacPrivate.None? {
        return Failure(ERROR_FILE_NOT_FOUND);
      }
      error := tpm.privateError(hmacPrivate.value);
      if error.Some? {
        return Failure(error.value);
      }
      error := tpm.loadError(hmacPublic.value, hmacPrivate.value);
      if error.Some? {
        LimpetEvictHmacKey();
        return Failure(error.value);
      }
      answer := Signature(tpm.mac(hmacPublic.value, hmacPrivate.value, data));
    }
  }
}
