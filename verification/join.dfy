/** join.go: building an aggregate error (Join) and rendering and
    decomposing it (Error, Format, Unwrap). */
module Join {
  import opened Errors

  /** The inputs with every nil entry dropped, in their original order. */
  function NonNil(s: seq<Err>): (r: seq<Err>)
    ensures forall i | 0 <= i < |r| :: r[i] != Nil
    ensures |r| <= |s|
  {
    if s == [] then []
    else NonNil(s[..|s| - 1]) + (if s[|s| - 1] == Nil then [] else [s[|s| - 1]])
  }

  /** Every non-nil error occurs in NonNil(s) exactly as often as in s. */
  lemma {:induction false} NonNilMultiset(s: seq<Err>)
    ensures multiset(NonNil(s)) == multiset(s)[Nil := 0]
  {
    if s != [] {
      NonNilMultiset(s[..|s| - 1]);
      assert s == s[..|s| - 1] + [s[|s| - 1]];
    }
  }

  /** NonNil(s) is empty exactly when every entry of s is nil. */
  lemma {:induction false} NonNilEmpty(s: seq<Err>)
    ensures NonNil(s) == [] <==> forall i | 0 <= i < |s| :: s[i] == Nil
  {
    if s != [] {
      var t := s[..|s| - 1];
      NonNilEmpty(t);
      assert forall i | 0 <= i < |t| :: t[i] == s[i];
    }
  }

  /** Without nils in the input, NonNil changes nothing. */
  lemma {:induction false} NonNilIdentity(s: seq<Err>)
    requires forall i | 0 <= i < |s| :: s[i] != Nil
    ensures NonNil(s) == s
  {
    if s != [] {
      NonNilIdentity(s[..|s| - 1]);
      assert s == s[..|s| - 1] + [s[|s| - 1]];
    }
  }

  /** The positions of the non-nil entries, in increasing order. */
  function NonNilPositions(s: seq<Err>): seq<nat>
  {
    if s == [] then []
    else NonNilPositions(s[..|s| - 1]) + (if s[|s| - 1] == Nil then [] else [|s| - 1])
  }

  /** NonNil keeps exactly the non-nil entries and keeps them in order:
      its j-th element sits at the j-th non-nil position of the input. */
  lemma {:induction false} NonNilOrder(s: seq<Err>)
    ensures |NonNilPositions(s)| == |NonNil(s)|
    ensures forall j | 0 <= j < |NonNil(s)| ::
      NonNilPositions(s)[j] < |s| && s[NonNilPositions(s)[j]] == NonNil(s)[j]
    ensures forall j, k | 0 <= j < k < |NonNilPositions(s)| ::
      NonNilPositions(s)[j] < NonNilPositions(s)[k]
    ensures forall i | 0 <= i < |s| && s[i] != Nil :: i in NonNilPositions(s)
  {
    if s != [] {
      var t := s[..|s| - 1];
      NonNilOrder(t);
      assert forall i | 0 <= i < |t| :: t[i] == s[i];
    }
  }

  /** One more input adds itself when it is not nil. */
  lemma NonNilSnoc(s: seq<Err>, x: Err)
    ensures NonNil(s + [x]) == NonNil(s) + (if x == Nil then [] else [x])
  {
    assert (s + [x])[..|s|] == s;
  }

  /** Dropping nils distributes over concatenation. */
  lemma {:induction false} NonNilAppend(s: seq<Err>, t: seq<Err>)
    ensures NonNil(s + t) == NonNil(s) + NonNil(t)
  {
    if t == [] {
      assert s + t == s;
    } else {
      var u, x := t[..|t| - 1], t[|t| - 1];
      NonNilAppend(s, u);
      assert t == u + [x];
      assert s + t == (s + u) + [x];
      NonNilSnoc(s + u, x);
      NonNilSnoc(u, x);
      Associative(NonNil(s), NonNil(u), if x == Nil then [] else [x]);
    }
  }

  /** Filtering nils out of an aggregate's inputs does not change the kinds
      or the status errors found along the chain. */
  lemma {:induction false} NonNilChain(s: seq<Err>)
    ensures KindsOfAll(NonNil(s)) == KindsOfAll(s)
    ensures AnyHasStatus(NonNil(s)) == AnyHasStatus(s)
  {
    if s != [] {
      var t, x := s[..|s| - 1], s[|s| - 1];
      NonNilChain(t);
      if x == Nil {
        assert NonNil(s) == NonNil(t);
        assert KindsOfAll(s) == KindsOfAll(t) + KindsOf(Nil);
      } else {
        var live := NonNil(t) + [x];
        assert NonNil(s) == live;
        assert live[..|live| - 1] == NonNil(t);
        assert KindsOfAll(live) == KindsOfAll(NonNil(t)) + KindsOf(x);
      }
    }
  }

  /** What Join returns, stated on values: nil for no non-nil input, the
      single input itself when the package already owns its type, that input
      wrapped in an errorValue otherwise, and an aggregate of all non-nil
      inputs in order when there are two or more. */
  function JoinOf(errs: seq<Err>): (r: Err)
    ensures r == Nil <==> forall i | 0 <= i < |errs| :: errs[i] == Nil
    ensures r != Nil ==> Owned(r)
    ensures KindsOf(r) == KindsOfAll(errs)
    ensures HasStatus(r) == AnyHasStatus(errs)
  {
    var live := NonNil(errs);
    NonNilChain(errs);
    NonNilEmpty(errs);
    if |live| == 0 then Nil
    else if |live| == 1 then (if Owned(live[0]) then live[0] else Value(live[0]))
    else Joined(live)
  }

  /** Join: counts the non-nil inputs while remembering the last one seen,
      then either returns nil, returns or wraps that single error, or
      collects the non-nil inputs into a new joinError. */
  method Join(errs: seq<Err>) returns (r: Err)
    ensures r == JoinOf(errs)
  {
    var e := Nil;
    var n := 0;
    for i := 0 to |errs|
      invariant n == |NonNil(errs[..i])|
      invariant n == 0 ==> e == Nil
      invariant n > 0 ==> e == NonNil(errs[..i])[n - 1]
    {
      assert errs[..i + 1][..i] == errs[..i];
      if errs[i] != Nil {
        e := errs[i];
        n := n + 1;
      }
    }
    assert errs[..|errs|] == errs;
    if n == 0 {
      return Nil;
    }
    if n == 1 {
      if e.Value? || e.Joined? {
        return e;
      }
      return Value(e);
    }
    var joined := [];
    for i := 0 to |errs|
      invariant joined == NonNil(errs[..i])
    {
      assert errs[..i + 1][..i] == errs[..i];
      if errs[i] != Nil {
        joined := joined + [errs[i]];
      }
    }
    return Joined(joined);
  }

  /** Exactly one non-nil input: Join hands back that very error when it
      is an errorValue or a joinError, and wraps it in an errorValue
      otherwise. */
  lemma JoinOne(errs: seq<Err>, k: nat)
    requires k < |errs| && errs[k] != Nil
    requires forall i | 0 <= i < |errs| && i != k :: errs[i] == Nil
    ensures JoinOf(errs) == if Owned(errs[k]) then errs[k] else Value(errs[k])
  {
    NonNilSingle(errs, k);
  }

  /** A single non-nil input is all that NonNil keeps. */
  lemma {:induction false} NonNilSingle(errs: seq<Err>, k: nat)
    requires k < |errs| && errs[k] != Nil
    requires forall i | 0 <= i < |errs| && i != k :: errs[i] == Nil
    ensures NonNil(errs) == [errs[k]]
  {
    var init := errs[..|errs| - 1];
    assert forall i | 0 <= i < |init| :: init[i] == errs[i];
    if k == |errs| - 1 {
      NonNilEmpty(init);
    } else {
      NonNilSingle(init, k);
    }
  }

  /** Joining a single foreign error gives a wrapper with the same text
      that unwraps to exactly that error. */
  lemma JoinForeign(x: Err)
    requires x != Nil && !Owned(x)
    ensures JoinOf([x]) == Value(x)
    ensures ErrorText(JoinOf([x])) == ErrorText(x)
  {
  }

  /** Join of the result of Join returns it unchanged, so the package's
      wrappers are never wrapped twice. */
  lemma JoinIdempotent(errs: seq<Err>)
    ensures JoinOf([JoinOf(errs)]) == JoinOf(errs)
  {
    var r := JoinOf(errs);
    if r != Nil {
      JoinOne([r], 0);
    }
  }

  /** Two or more non-nil inputs: a fresh aggregate whose members are the
      non-nil inputs, as many as there are, none of them nil, in input
      order and with nested aggregates left as they are. */
  lemma JoinMany(errs: seq<Err>)
    requires |NonNil(errs)| >= 2
    ensures JoinOf(errs).Joined?
    ensures Unwrap(JoinOf(errs)) == NonNil(errs)
    ensures Nil !in Unwrap(JoinOf(errs))
  {
    NonNilMultiset(errs);
    assert multiset(NonNil(errs))[Nil] == 0;
  }

  /** Joining two non-nil errors keeps both, in order, unflattened. */
  lemma JoinPair(a: Err, b: Err)
    requires a != Nil && b != Nil
    ensures JoinOf([a, b]) == Joined([a, b])
    ensures Unwrap(JoinOf([a, b])) == [a, b]
  {
    NonNilIdentity([a, b]);
  }

  /** (*joinError).Unwrap: the stored members, unfiltered and unflattened,
      which are exactly what the kind and status walks look through. */
  function Unwrap(e: Err): (r: seq<Err>)
    requires e.Joined?
    ensures forall k | k in KindsOf(e) :: exists i | 0 <= i < |r| :: k in KindsOf(r[i])
    ensures forall i, k | 0 <= i < |r| && k in KindsOf(r[i]) :: k in KindsOf(e)
    ensures HasStatus(e) <==> exists i | 0 <= i < |r| :: HasStatus(r[i])
  {
    KindsOfAllEach(e.errs);
    AnyHasStatusMembers(e.errs);
    e.errs
  }

  /** The output buffer that fmt.State and strings.Builder write into. */
  class Buffer {
    var text: string

    constructor ()
      ensures text == ""
    {
      text := "";
    }

    method Write(s: string)
      modifies this
      ensures text == old(text) + s
    {
      text := text + s;
    }
  }

  /** Appending a member appends its rendering when it is shown. */
  lemma MembersSnoc(errs: seq<Err>, x: Err, verbose: bool)
    ensures Members(errs + [x], verbose)
      == Members(errs, verbose) + (if verbose || !Collapsible(x) then [Render(x, verbose)] else [])
  {
    assert (errs + [x])[..|errs|] == errs;
  }

  /** One more member of a prefix adds its rendering when it is shown. */
  lemma MembersPrefix(errs: seq<Err>, i: nat, verbose: bool)
    requires i < |errs|
    ensures Members(errs[..i + 1], verbose)
      == if verbose || !Collapsible(errs[i]) then Members(errs[..i], verbose) + [Render(errs[i], verbose)]
         else Members(errs[..i], verbose)
  {
    assert errs[..i + 1] == errs[..i] + [errs[i]];
    MembersSnoc(errs[..i], errs[i], verbose);
    assert Members(errs[..i], verbose) + [] == Members(errs[..i], verbose);
  }

  /** Appending a line adds one separator, unless it is the first line. */
  lemma LinesSnoc(ls: seq<string>, y: string)
    ensures Lines(ls + [y]) == if ls == [] then y else Lines(ls) + "\n" + y
  {
    assert (ls + [y])[..|ls|] == ls;
  }

  lemma Associative<T>(a: seq<T>, b: seq<T>, c: seq<T>)
    ensures (a + b) + c == a + (b + c)
  {
  }

  /** One iteration of Format's loop: the text grows by the next member's
      rendering, after a newline unless nothing was written before. */
  lemma FormatStep(errs: seq<Err>, i: nat, verbose: bool)
    requires i < |errs|
    ensures var before, after := Members(errs[..i], verbose), Members(errs[..i + 1], verbose);
      if verbose || !Collapsible(errs[i]) then
        |after| != 0
        && Lines(after) == if |before| == 0 then Render(errs[i], verbose)
                           else Lines(before) + "\n" + Render(errs[i], verbose)
      else after == before
  {
    MembersPrefix(errs, i, verbose);
    LinesSnoc(Members(errs[..i], verbose), Render(errs[i], verbose));
  }

  /** (*joinError).Format: writes each shown member, a newline between
      consecutive ones; collapsible members are skipped unless verbose,
      which stands for the %+v request. */
  method Format(e: Err, st: Buffer, verbose: bool)
    requires e.Joined?
    modifies st
    ensures st.text == old(st.text) + Render(e, verbose)
  {
    var first := true;
    for i := 0 to |e.errs|
      invariant st.text == old(st.text) + Lines(Members(e.errs[..i], verbose))
      invariant first <==> |Members(e.errs[..i], verbose)| == 0
    {
      var err := e.errs[i];
      FormatStep(e.errs, i, verbose);
      if !verbose && Collapsible(err) {
        continue;
      }
      ghost var written := Lines(Members(e.errs[..i], verbose));
      if !first {
        st.Write("\n");
        Associative(old(st.text), written, "\n");
        Associative(old(st.text), written + "\n", Render(err, verbose));
      } else {
        assert written == "";
      }
      st.Write(Render(err, verbose));
      first := false;
    }
    assert e.errs[..|e.errs|] == e.errs;
  }

  /** (*joinError).Error: the %v (terse) rendering. */
  method Error(e: Err) returns (s: string)
    requires e.Joined?
    ensures s == ErrorText(e)
  {
    var b := new Buffer();
    Format(e, b, false);
    s := b.text;
  }

  /** The members terse rendering keeps: those without the collapsible marker. */
  function Visible(errs: seq<Err>): (r: seq<Err>)
    ensures forall i | 0 <= i < |r| :: !Collapsible(r[i])
    ensures |r| <= |errs|
  {
    if errs == [] then []
    else
      var last := errs[|errs| - 1];
      Visible(errs[..|errs| - 1]) + (if Collapsible(last) then [] else [last])
  }

  /** The positions of the members without the collapsible marker, in
      increasing order. */
  function VisiblePositions(errs: seq<Err>): seq<nat>
  {
    if errs == [] then []
    else
      VisiblePositions(errs[..|errs| - 1])
      + (if Collapsible(errs[|errs| - 1]) then [] else [|errs| - 1])
  }

  /** Visible keeps exactly the members without the collapsible marker and
      keeps them in order: its j-th element is the member at the j-th
      non-collapsible position, and every non-collapsible member has one. */
  lemma {:induction false} VisibleOrder(errs: seq<Err>)
    ensures |VisiblePositions(errs)| == |Visible(errs)|
    ensures forall j | 0 <= j < |Visible(errs)| ::
      VisiblePositions(errs)[j] < |errs| && errs[VisiblePositions(errs)[j]] == Visible(errs)[j]
    ensures forall j, k | 0 <= j < k < |VisiblePositions(errs)| ::
      VisiblePositions(errs)[j] < VisiblePositions(errs)[k]
    ensures forall i | 0 <= i < |errs| && !Collapsible(errs[i]) :: i in VisiblePositions(errs)
  {
    if errs != [] {
      var init := errs[..|errs| - 1];
      VisibleOrder(init);
      assert forall i | 0 <= i < |init| :: init[i] == errs[i];
    }
  }

  /** Each error rendered on its own, in order. */
  function RenderEach(errs: seq<Err>, verbose: bool): (r: seq<string>)
    ensures |r| == |errs|
  {
    seq(|errs|, i requires 0 <= i < |errs| => Render(errs[i], verbose))
  }

  /** Under %+v every member is rendered, in order. */
  lemma {:induction false} VerboseShowsAll(errs: seq<Err>)
    ensures Members(errs, true) == RenderEach(errs, true)
  {
    if errs != [] {
      var init := errs[..|errs| - 1];
      VerboseShowsAll(init);
      assert RenderEach(errs, true) == RenderEach(init, true) + [Render(errs[|errs| - 1], true)];
    }
  }

  /** Under any other request, collapsible members contribute nothing and
      the others are rendered in order. */
  lemma {:induction false} TerseHidesCollapsible(errs: seq<Err>)
    ensures Members(errs, false) == RenderEach(Visible(errs), false)
  {
    if errs != [] {
      var init, last := errs[..|errs| - 1], errs[|errs| - 1];
      TerseHidesCollapsible(init);
      if !Collapsible(last) {
        var v := Visible(init);
        assert RenderEach(v + [last], false) == RenderEach(v, false) + [Render(last, false)];
      }
    }
  }

  /** When every member is collapsible, the terse rendering, and so
      Error(), is empty. */
  lemma {:induction false} TerseAllCollapsed(errs: seq<Err>)
    requires forall i | 0 <= i < |errs| :: Collapsible(errs[i])
    ensures Render(Joined(errs), false) == ""
  {
    if errs != [] {
      var init := errs[..|errs| - 1];
      TerseAllCollapsed(init);
    }
  }

  /** Joining an error with a captured stack: Error() shows only the error. */
  lemma StackHiddenWhenTerse(err: Err, stack: Err)
    requires err != Nil && !Collapsible(err) && Collapsible(stack)
    ensures ErrorText(JoinOf([err, stack])) == ErrorText(err)
  {
    JoinPair(err, stack);
    MembersSnoc([], err, false);
    assert [] + [err] == [err];
    MembersSnoc([err], stack, false);
    assert [err] + [stack] == [err, stack];
    calc {
      ErrorText(JoinOf([err, stack]));
      Render(Joined([err, stack]), false);
      Lines(Members([err, stack], false));
      { assert Members([err, stack], false) == [Render(err, false)]; }
      Lines([Render(err, false)]);
    }
  }

  /** Two members that are both shown are rendered one per line; under
      %+v this includes a captured stack. */
  lemma PairRendering(a: Err, b: Err, verbose: bool)
    requires a != Nil && b != Nil
    requires verbose || (!Collapsible(a) && !Collapsible(b))
    ensures Render(JoinOf([a, b]), verbose) == Render(a, verbose) + "\n" + Render(b, verbose)
  {
    JoinPair(a, b);
    var shown := [Render(a, verbose), Render(b, verbose)];
    MembersSnoc([], a, verbose);
    assert [] + [a] == [a];
    MembersSnoc([a], b, verbose);
    assert [a] + [b] == [a, b];
    assert [Render(a, verbose)] + [Render(b, verbose)] == shown;
    assert Members([a, b], verbose) == shown;
    LinesSnoc([Render(a, verbose)], Render(b, verbose));
  }

  /** The text cut at every newline. */
  function Split(s: string): (r: seq<string>)
    ensures |r| >= 1
  {
    if s == [] then [""]
    else if s[0] == '\n' then [""] + Split(s[1..])
    else
      var rest := Split(s[1..]);
      [[s[0]] + rest[0]] + rest[1..]
  }

  lemma {:induction false} SplitNoNewline(s: string)
    requires '\n' !in s
    ensures Split(s) == [s]
  {
    if s != [] {
      SplitNoNewline(s[1..]);
      assert [s[0]] + s[1..] == s;
    }
  }

  lemma SplitCons(c: char, t: string)
    ensures Split([c] + t) ==
      if c == '\n' then [""] + Split(t) else [[c] + Split(t)[0]] + Split(t)[1..]
  {
    assert ([c] + t)[1..] == t;
  }

  lemma {:induction false} SplitAtNewline(a: string, b: string)
    ensures Split(a + "\n" + b) == Split(a) + Split(b)
  {
    if a == [] {
      assert a + "\n" + b == ['\n'] + b;
      SplitCons('\n', b);
    } else {
      var t := a[1..];
      assert a == [a[0]] + t;
      assert a + "\n" + b == [a[0]] + (t + "\n" + b);
      SplitAtNewline(t, b);
      SplitCons(a[0], t);
      SplitCons(a[0], t + "\n" + b);
    }
  }

  /** Members are separated by exactly one newline with none before or
      after: cutting the text at its newlines gives back the member
      renderings, provided none of them holds a newline itself. */
  lemma {:induction false} SplitLines(ls: seq<string>)
    requires |ls| >= 1
    requires forall i | 0 <= i < |ls| :: '\n' !in ls[i]
    ensures Split(Lines(ls)) == ls
  {
    var last := ls[|ls| - 1];
    SplitNoNewline(last);
    if |ls| > 1 {
      var init := ls[..|ls| - 1];
      SplitLines(init);
      SplitAtNewline(Lines(init), last);
      assert ls == init + [last];
    }
  }
}
