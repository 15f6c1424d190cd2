/** grpc.go: translating a classified error into a gRPC status error. */
module Grpc {
  import opened Kinds
  import Codes
  import opened Errors
  import Join

  datatype Option<T> = None | Some(value: T)

  /** isGRPCError: status.FromError answers ok for nil (a status with code
      OK) and recognises a status error anywhere on the unwrap chain. */
  function IsGRPCError(e: Err): (r: bool)
    ensures e == Nil ==> r
    ensures e.Status? ==> r
    ensures e.Leaf? ==> (r <==> e.status)
    ensures e.Value? ==> (r <==> HasStatus(e.inner))
    ensures e.Wrapped? ==> (r <==> HasStatus(e.cause))
    ensures e.Joined? ==> (r <==> exists i | 0 <= i < |e.errs| :: HasStatus(e.errs[i]))
  {
    if e.Joined? then
      AnyHasStatusMembers(e.errs);
      HasStatus(e)
    else
      e == Nil || HasStatus(e)
  }

  /** ToGRPC: nil stays nil, a status error passes through, otherwise the
      first kind that matches, in a fixed order, picks the code and the
      error's own text becomes the status message; an unclassified error
      is returned as it is. */
  function ToGRPC(e: Err): (r: Err)
    ensures e == Nil ==> r == Nil
    ensures IsGRPCError(e) ==> r == e
    ensures KindsOf(e) == {} ==> r == e
    ensures r != e ==> r.Status? && r.desc == ErrorText(e) && !IsGRPCError(e)
  {
    if e == Nil then Nil
    else if IsGRPCError(e) then e
    else
      match Select(KindsOf(e))
      case Some(code) => Status(code, ErrorText(e))
      case None => e
  }

  /** The switch of ToGRPC: the code of the first case whose predicate
      holds, or none when no predicate holds. */
  function Select(ks: set<Kind>): (r: Option<Codes.Code>)
    ensures ks == {} ==> r == None
    ensures r.Some? ==> r.value != Codes.OK
  {
    if InvalidArgument in ks then Some(Codes.InvalidArgument)
    else if NotFound in ks then Some(Codes.NotFound)
    else if AlreadyExists in ks then Some(Codes.AlreadyExists)
    else if FailedPrecondition in ks || Conflict in ks || NotModified in ks then Some(Codes.FailedPrecondition)
    else if Unavailable in ks then Some(Codes.Unavailable)
    else if NotImplemented in ks then Some(Codes.Unimplemented)
    else if Canceled in ks then Some(Codes.Canceled)
    else if DeadlineExceeded in ks then Some(Codes.DeadlineExceeded)
    else if Unauthorized in ks then Some(Codes.Unauthenticated)
    else if PermissionDenied in ks then Some(Codes.PermissionDenied)
    else if Internal in ks then Some(Codes.Internal)
    else if DataLoss in ks then Some(Codes.DataLoss)
    else if Aborted in ks then Some(Codes.Aborted)
    else if OutOfRange in ks then Some(Codes.OutOfRange)
    else if ResourceExhausted in ks then Some(Codes.ResourceExhausted)
    else if Unknown in ks then Some(Codes.Unknown)
    else None
  }

  /** The position of each kind in the order the switch tries them. */
  function Rank(k: Kind): nat
  {
    match k
    case InvalidArgument => 0
    case NotFound => 1
    case AlreadyExists => 2
    case FailedPrecondition => 3
    case Conflict => 4
    case NotModified => 5
    case Unavailable => 6
    case NotImplemented => 7
    case Canceled => 8
    case DeadlineExceeded => 9
    case Unauthorized => 10
    case PermissionDenied => 11
    case Internal => 12
    case DataLoss => 13
    case Aborted => 14
    case OutOfRange => 15
    case ResourceExhausted => 16
    case Unknown => 17
  }

  /** The code each kind translates to. */
  function CodeOf(k: Kind): (c: Codes.Code)
    ensures c != Codes.OK
  {
    match k
    case InvalidArgument => Codes.InvalidArgument
    case NotFound => Codes.NotFound
    case AlreadyExists => Codes.AlreadyExists
    case FailedPrecondition => Codes.FailedPrecondition
    case Conflict => Codes.FailedPrecondition
    case NotModified => Codes.FailedPrecondition
    case Unavailable => Codes.Unavailable
    case NotImplemented => Codes.Unimplemented
    case Canceled => Codes.Canceled
    case DeadlineExceeded => Codes.DeadlineExceeded
    case Unauthorized => Codes.Unauthenticated
    case PermissionDenied => Codes.PermissionDenied
    case Internal => Codes.Internal
    case DataLoss => Codes.DataLoss
    case Aborted => Codes.Aborted
    case OutOfRange => Codes.OutOfRange
    case ResourceExhausted => Codes.ResourceExhausted
    case Unknown => Codes.Unknown
  }

  /** A foreign error whose own chain reaches a status comes back
      unchanged, whatever kinds it also carries. */
  lemma ForeignStatusPassesThrough(text: string, detail: string, ks: set<Kind>, collapsible: bool)
    ensures var e := Leaf(text, detail, ks, collapsible, true);
      IsGRPCError(e) && ToGRPC(e) == e
  {
  }

  /** The switch picks the code of the matching kind of lowest rank. */
  lemma SelectFirst(ks: set<Kind>, k: Kind)
    requires k in ks
    requires forall other | other in ks :: Rank(k) <= Rank(other)
    ensures Select(ks) == Some(CodeOf(k))
  {
    if Rank(k) < 6 {
      SelectFirstEarly(ks, k);
    } else if Rank(k) < 12 {
      SelectFirstMiddle(ks, k);
    } else {
      SelectFirstLate(ks, k);
    }
  }

  /** SelectFirst for the kinds tried before Unavailable. */
  lemma SelectFirstEarly(ks: set<Kind>, k: Kind)
    requires k in ks && Rank(k) < 6
    requires forall other | other in ks :: Rank(k) <= Rank(other)
    ensures Select(ks) == Some(CodeOf(k))
  {
    match k
    case InvalidArgument => {}
    case NotFound => {}
    case AlreadyExists => {}
    case FailedPrecondition => {}
    case Conflict => {}
    case NotModified => {}
  }

  /** SelectFirst for Unavailable up to PermissionDenied. */
  lemma SelectFirstMiddle(ks: set<Kind>, k: Kind)
    requires k in ks && 6 <= Rank(k) < 12
    requires forall other | other in ks :: Rank(k) <= Rank(other)
    ensures Select(ks) == Some(CodeOf(k))
  {
    assert InvalidArgument !in ks && NotFound !in ks && AlreadyExists !in ks;
    assert FailedPrecondition !in ks && Conflict !in ks && NotModified !in ks;
    match k
    case Unavailable => {}
    case NotImplemented => {}
    case Canceled => {}
    case DeadlineExceeded => {}
    case Unauthorized => {}
    case PermissionDenied => {}
  }

  /** SelectFirst for Internal and the kinds tried after it. */
  lemma SelectFirstLate(ks: set<Kind>, k: Kind)
    requires k in ks && 12 <= Rank(k)
    requires forall other | other in ks :: Rank(k) <= Rank(other)
    ensures Select(ks) == Some(CodeOf(k))
  {
    assert InvalidArgument !in ks && NotFound !in ks && AlreadyExists !in ks;
    assert FailedPrecondition !in ks && Conflict !in ks && NotModified !in ks;
    assert Unavailable !in ks && NotImplemented !in ks && Canceled !in ks;
    assert DeadlineExceeded !in ks && Unauthorized !in ks && PermissionDenied !in ks;
    match k
    case Internal => {}
    case DataLoss => {}
    case Aborted => {}
    case OutOfRange => {}
    case ResourceExhausted => {}
    case Unknown => {}
  }

  /** Some code is picked exactly when some kind matches. */
  lemma SelectTotal(ks: set<Kind>)
    ensures Select(ks).None? <==> ks == {}
  {
    if ks != {} {
      var k :| k in ks;
      assert Select(ks).Some? by {
        match k
        case InvalidArgument => {}
        case NotFound => {}
        case AlreadyExists => {}
        case FailedPrecondition => {}
        case Conflict => {}
        case NotModified => {}
        case Unavailable => {}
        case NotImplemented => {}
        case Canceled => {}
        case DeadlineExceeded => {}
        case Unauthorized => {}
        case PermissionDenied => {}
        case Internal => {}
        case DataLoss => {}
        case Aborted => {}
        case OutOfRange => {}
        case ResourceExhausted => {}
        case Unknown => {}
      }
    }
  }

  /** ToGRPC translates an error that is not yet a status error with the
      code of its matching kind of lowest rank, and the error's text. */
  lemma ToGRPCFirstKind(e: Err, k: Kind)
    requires !IsGRPCError(e)
    requires k in KindsOf(e)
    requires forall other | other in KindsOf(e) :: Rank(k) <= Rank(other)
    ensures ToGRPC(e) == Status(CodeOf(k), ErrorText(e))
  {
    SelectFirst(KindsOf(e), k);
  }

  /** Only the FailedPrecondition, Conflict and NotModified kinds share a
      code; every other kind has a code of its own. */
  lemma SharedCodes(a: Kind, b: Kind)
    requires a != b && CodeOf(a) == CodeOf(b)
    ensures a in {FailedPrecondition, Conflict, NotModified}
    ensures b in {FailedPrecondition, Conflict, NotModified}
    ensures CodeOf(a) == Codes.FailedPrecondition
  {
  }

  /** Translating twice changes nothing more than translating once. */
  lemma ToGRPCIdempotent(e: Err)
    ensures ToGRPC(ToGRPC(e)) == ToGRPC(e)
  {
  }

  /** An error in the merged bucket, with no earlier kind, gets FailedPrecondition. */
  lemma MergedBucket(e: Err)
    requires !IsGRPCError(e)
    requires FailedPrecondition in KindsOf(e) || Conflict in KindsOf(e) || NotModified in KindsOf(e)
    requires InvalidArgument !in KindsOf(e) && NotFound !in KindsOf(e) && AlreadyExists !in KindsOf(e)
    ensures ToGRPC(e) == Status(Codes.FailedPrecondition, ErrorText(e))
  {
  }

  /** ToGRPCf: the formatted message, a colon and the error's text, as an
      error that unwraps to the original, translated by ToGRPC. */
  function ToGRPCf(e: Err, formatted: string): (r: Err)
    ensures r != Nil
  {
    ToGRPC(Wrapped(formatted, e))
  }

  /** The prefix changes the status message but not the code: ToGRPCf
      classifies by the original error's kinds. */
  lemma ToGRPCfTranslates(e: Err, formatted: string)
    requires e != Nil
    ensures ToGRPC(e).Status? && !IsGRPCError(e) ==>
      ToGRPCf(e, formatted) == Status(ToGRPC(e).code, formatted + ": " + ErrorText(e))
    ensures !ToGRPC(e).Status? || IsGRPCError(e) ==> ToGRPCf(e, formatted) == Wrapped(formatted, e)
  {
  }

  /** With a nil error ToGRPCf still returns a non-nil, unclassified error. */
  lemma ToGRPCfNil(formatted: string)
    ensures ToGRPCf(Nil, formatted) == Wrapped(formatted, Nil)
    ensures ErrorText(ToGRPCf(Nil, formatted)) == formatted + ": %!w(<nil>)"
  {
    var w := Wrapped(formatted, Nil);
    assert KindsOf(w) == KindsOf(Nil) == {};
    assert !HasStatus(w);
  }

  /** Translating an aggregate uses the kinds of all its members and
      passes it through when any member carries a status. */
  lemma ToGRPCJoin(errs: seq<Err>)
    ensures AnyHasStatus(errs) ==> ToGRPC(Join.JoinOf(errs)) == Join.JoinOf(errs)
    ensures !AnyHasStatus(errs) && KindsOfAll(errs) == {} ==> ToGRPC(Join.JoinOf(errs)) == Join.JoinOf(errs)
    ensures !AnyHasStatus(errs) && KindsOfAll(errs) != {} ==>
      ToGRPC(Join.JoinOf(errs)).Status?
      && ToGRPC(Join.JoinOf(errs)) == Status(Select(KindsOfAll(errs)).value, ErrorText(Join.JoinOf(errs)))
  {
    SelectTotal(KindsOfAll(errs));
  }

  /** A not-found error joined with nils becomes a NotFound status whose
      message is the error's text. */
  lemma NotFoundThroughJoin()
    ensures var nf := Leaf("x", "x", {NotFound}, false, false);
      ToGRPC(Join.JoinOf([Nil, nf, Nil])) == Status(Codes.NotFound, "x")
  {
    var nf := Leaf("x", "x", {NotFound}, false, false);
    Join.JoinOne([Nil, nf, Nil], 1);
  }

  /** Sibling conflict and data-loss errors: the aggregate carries both
      kinds and the earlier one in the order, Conflict, wins. */
  lemma SiblingsThroughJoin()
    ensures var a, b := Leaf("a", "a", {Conflict}, false, false), Leaf("b", "b", {DataLoss}, false, false);
      ToGRPC(Join.JoinOf([a, b])) == Status(Codes.FailedPrecondition, "a\nb")
  {
    var a, b := Leaf("a", "a", {Conflict}, false, false), Leaf("b", "b", {DataLoss}, false, false);
    Join.JoinPair(a, b);
    Join.PairRendering(a, b, false);
    var j := Join.JoinOf([a, b]);
    assert [a, b][..1] == [a];
    assert [a][..0] == [];
    assert KindsOfAll([a]) == {Conflict} && !AnyHasStatus([a]);
    assert KindsOfAll([a, b]) == {Conflict, DataLoss};
    assert !AnyHasStatus([a, b]);
    assert ErrorText(j) == "a\nb";
    assert Select(KindsOf(j)) == Some(Codes.FailedPrecondition);
  }
}
