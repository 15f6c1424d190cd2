/** Error values as the package sees them: Go's nil error, a foreign error,
    the package's two wrapper types (errorValue and joinError), an error
    built by fmt.Errorf("%s: %w", ...), and a gRPC status error. */
module Errors {
  import opened Kinds
  import Codes

  datatype Err =
    | Nil
      /** Any error the package does not own: its %v text, its %+v text,
          the kinds its own chain carries, whether it implements the
          CollapsibleError marker (a captured stack does), and whether a
          gRPC status is reachable along its own chain (a GRPCStatus method,
          or an Unwrap of its own that leads to a status error). */
    | Leaf(text: string, detail: string, kinds: set<Kind>, collapsible: bool, status: bool)
      /** *errorValue: the single-cause wrapper Join puts around a foreign error. */
    | Value(inner: Err)
      /** *joinError: the aggregate, holding its members in order. */
    | Joined(errs: seq<Err>)
      /** fmt.Errorf("%s: %w", msg, cause). */
    | Wrapped(msg: string, cause: Err)
      /** status.Error(code, desc). */
    | Status(code: Codes.Code, desc: string)

  /** The two concrete types the package defines, which Join never re-wraps. */
  predicate Owned(e: Err)
  {
    e.Value? || e.Joined?
  }

  /** Whether a member implements the CollapsibleError marker. */
  predicate Collapsible(e: Err)
  {
    e.Leaf? && e.collapsible
  }

  /** Lines separated by exactly one newline, without a leading or
      trailing one. */
  function Lines(ls: seq<string>): string
  {
    if |ls| == 0 then ""
    else if |ls| == 1 then ls[0]
    else Lines(ls[..|ls| - 1]) + "\n" + ls[|ls| - 1]
  }

  /** The text fmt prints for `e` with %v (verbose false) or %+v (verbose true). */
  function Render(e: Err, verbose: bool): string
    decreases e
  {
    match e
    case Nil => "<nil>"
    case Leaf(text, detail, _, _, _) => if verbose then detail else text
    case Value(inner) => Render(inner, verbose)
    case Joined(errs) => Lines(Members(errs, verbose))
    case Wrapped(msg, cause) =>
      msg + ": " + (if cause == Nil then "%!w(<nil>)" else Render(cause, false))
    case Status(code, desc) => "rpc error: code = " + Codes.Name(code) + " desc = " + desc
  }

  /** The renderings of the members a joinError shows: every member when
      verbose, otherwise only those that are not collapsible. */
  function Members(errs: seq<Err>, verbose: bool): seq<string>
    decreases errs
  {
    if errs == [] then []
    else
      var last := errs[|errs| - 1];
      Members(errs[..|errs| - 1], verbose)
      + (if verbose || !Collapsible(last) then [Render(last, verbose)] else [])
  }

  /** err.Error(), taken to be the terse (%v) rendering; for a foreign
      error this assumes its Error() and its %v text agree. */
  function ErrorText(e: Err): string
  {
    Render(e, false)
  }

  /** The kinds the package's predicates find on `e`: they follow the
      unwrap chain through single causes and through every member of an
      aggregate, so `k in KindsOf(e)` is IsK(err). */
  function KindsOf(e: Err): set<Kind>
    decreases e
  {
    match e
    case Nil => {}
    case Leaf(_, _, kinds, _, _) => kinds
    case Value(inner) => KindsOf(inner)
    case Joined(errs) => KindsOfAll(errs)
    case Wrapped(_, cause) => KindsOf(cause)
    case Status(_, _) => {}
  }

  function KindsOfAll(errs: seq<Err>): set<Kind>
    decreases errs
  {
    if errs == [] then {} else KindsOfAll(errs[..|errs| - 1]) + KindsOf(errs[|errs| - 1])
  }

  /** Whether a status error is reachable along the unwrap chain, which is
      what status.FromError recognises. */
  predicate HasStatus(e: Err)
    decreases e
  {
    match e
    case Nil => false
    case Leaf(_, _, _, _, status) => status
    case Value(inner) => HasStatus(inner)
    case Joined(errs) => AnyHasStatus(errs)
    case Wrapped(_, cause) => HasStatus(cause)
    case Status(_, _) => true
  }

  predicate AnyHasStatus(errs: seq<Err>)
    decreases errs
  {
    errs != [] && (AnyHasStatus(errs[..|errs| - 1]) || HasStatus(errs[|errs| - 1]))
  }

  /** An aggregate has a kind exactly when one of its members has it. */
  lemma {:induction false} KindsOfAllMembers(errs: seq<Err>, k: Kind)
    ensures k in KindsOfAll(errs) <==> exists i | 0 <= i < |errs| :: k in KindsOf(errs[i])
  {
    if errs != [] {
      var init := errs[..|errs| - 1];
      KindsOfAllMembers(init, k);
      assert forall i | 0 <= i < |init| :: init[i] == errs[i];
    }
  }

  /** KindsOfAllMembers for every kind at once. */
  lemma KindsOfAllEach(errs: seq<Err>)
    ensures forall k | k in KindsOfAll(errs) :: exists i | 0 <= i < |errs| :: k in KindsOf(errs[i])
    ensures forall i, k | 0 <= i < |errs| && k in KindsOf(errs[i]) :: k in KindsOfAll(errs)
  {
    forall k {
      KindsOfAllMembers(errs, k);
    }
  }

  /** An aggregate carries a status error exactly when one of its members does. */
  lemma {:induction false} AnyHasStatusMembers(errs: seq<Err>)
    ensures AnyHasStatus(errs) <==> exists i | 0 <= i < |errs| :: HasStatus(errs[i])
  {
    if errs != [] {
      var init := errs[..|errs| - 1];
      AnyHasStatusMembers(init);
      assert forall i | 0 <= i < |init| :: init[i] == errs[i];
    }
  }
}
