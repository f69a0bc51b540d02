/**
 * `processCalloutBlocks`: folds the paragraphs between a `:::kind` opener and a `:::` closer
 * into one callout block. The loop keeps the output built so far and the callout being
 * gathered; `Step` is one iteration of that loop and `RunFrom` the loop from a given state.
 */
module Callouts {
  import opened Wrappers
  import opened Text
  import opened Blocks
  import opened Cleanup

  // ---------------------------------------------------------------------------------------
  // The callout kinds and how they are drawn.

  datatype Kind = Info | Tip | Warning | Success

  /** The word after `:::` that names the kind. */
  function KindWord(k: Kind): string
  {
    match k
    case Info => "info"
    case Tip => "tip"
    case Warning => "warning"
    case Success => "success"
  }

  /** The icon of each kind. */
  function KindEmoji(k: Kind): string
  {
    match k
    case Tip => "\U{1F4A1}"
    case Success => "\U{2705}"
    case Warning => "\U{26A0}\U{FE0F}"
    case Info => "\U{2139}\U{FE0F}"
  }

  /** The background colour of each kind. */
  function KindColor(k: Kind): string
  {
    match k
    case Tip => "yellow_background"
    case Success => "green_background"
    case Warning => "orange_background"
    case Info => "blue_background"
  }

  /** The text after the opener `:::kind`. */
  function Marker(k: Kind): (m: string)
    ensures |m| > |":::"|
  {
    ":::" + KindWord(k)
  }

  /** `/^:::(info|tip|warning|success)/`: the kind an opening text names, if any. */
  function OpenerKind(content: string): (k: Option<Kind>)
    ensures k.Some? ==> StartsWith(content, Marker(k.value))
    ensures k.None? ==> forall j: Kind :: !StartsWith(content, Marker(j))
  {
    if StartsWith(content, Marker(Info)) then Some(Info)
    else if StartsWith(content, Marker(Tip)) then Some(Tip)
    else if StartsWith(content, Marker(Warning)) then Some(Warning)
    else if StartsWith(content, Marker(Success)) then Some(Success)
    else None
  }

  // ---------------------------------------------------------------------------------------
  // Openers and closers.

  /** The content of a paragraph's first text run, when it has one. */
  function FirstContent(b: Block): Option<string>
  {
    if b.Paragraph? && b.richText != [] then Some(b.richText[0].content) else None
  }

  predicate IsOpener(b: Block)
  {
    var c := FirstContent(b); c.Some? && OpenerKind(c.value).Some?
  }

  predicate IsCloser(b: Block)
  {
    FirstContent(b) == Some(":::")
  }

  /** `:::` alone opens nothing: it is shorter than every opener. */
  lemma CloserNotOpener(b: Block)
    requires IsCloser(b)
    ensures !IsOpener(b)
  {
    var c := FirstContent(b).value;
    assert c == ":::";
    forall k: Kind
      ensures !StartsWith(c, Marker(k))
    {
      assert |Marker(k)| > |c|;
    }
  }

  /** A block the fold treats specially. */
  predicate IsMarker(b: Block)
  {
    IsOpener(b) || IsCloser(b)
  }

  /** The text of an opener after its marker and the white space that follows. */
  function OpenerText(b: Block): string
    requires IsOpener(b)
  {
    var c := FirstContent(b).value;
    SkipSpace(c[|Marker(OpenerKind(c).value)|..])
  }

  /**
   * The callout's own text: the first run with its content replaced (which keeps its styling
   * and drops its link), or nothing when the opener held only the marker.
   */
  function FirstBlock(b: Block): seq<RichText>
    requires IsOpener(b)
  {
    var t := OpenerText(b);
    if t == [] then [] else [RichText(t, None, b.richText[0].annotations)]
  }

  // ---------------------------------------------------------------------------------------
  // The fold.

  /** The callout being gathered. */
  datatype Pending = Pending(kind: Kind, firstBlock: seq<RichText>, children: seq<Block>)

  /** The loop's state: the blocks produced so far and the callout being gathered. */
  datatype State = State(out: seq<Block>, current: Option<Pending>)

  const Start := State([], None)

  function MakeCallout(p: Pending): Block
  {
    Callout(p.firstBlock, KindEmoji(p.kind), KindColor(p.kind), p.children)
  }

  /** One iteration of the loop. */
  function Step(st: State, b: Block): State
  {
    if IsOpener(b) then
      State(st.out, Some(Pending(OpenerKind(FirstContent(b).value).value, FirstBlock(b), [])))
    else if IsCloser(b) then
      if st.current.Some? then State(st.out + [MakeCallout(st.current.value)], None)
      else st
    else if st.current.Some? then
      var p := st.current.value;
      State(st.out, Some(p.(children := p.children + [b])))
    else State(st.out + [b], None)
  }

  /** The loop run over `bs` from state `st`. */
  function RunFrom(st: State, bs: seq<Block>): State
    decreases |bs|
  {
    if bs == [] then st else RunFrom(Step(st, bs[0]), bs[1..])
  }

  /** `processCalloutBlocks(blocks)`. */
  function CalloutBlocks(bs: seq<Block>): seq<Block>
  {
    RunFrom(Start, bs).out
  }

  method ProcessCalloutBlocks(blocks: seq<Block>) returns (processed: seq<Block>)
    ensures processed == CalloutBlocks(blocks)
  {
    processed := [];
    var current: Option<Pending> := None;
    var i := 0;
    while i < |blocks|
      invariant 0 <= i <= |blocks|
      invariant RunFrom(State(processed, current), blocks[i..]) == RunFrom(Start, blocks)
    {
      var block := blocks[i];
      assert blocks[i..][1..] == blocks[i + 1..];
      if IsOpener(block) {
        var kind := OpenerKind(FirstContent(block).value).value;
        current := Some(Pending(kind, FirstBlock(block), []));
      } else if IsCloser(block) {
        if current.Some? {
          processed := processed + [MakeCallout(current.value)];
          current := None;
        }
      } else if current.Some? {
        current := Some(current.value.(children := current.value.children + [block]));
      } else {
        processed := processed + [block];
      }
      i := i + 1;
    }
    assert blocks[i..] == [];
  }

  // ---------------------------------------------------------------------------------------
  // What the fold does.

  /** A block that holds no opener or closer, at its top level or inside a callout. */
  predicate Clean(b: Block)
  {
    !IsMarker(b) && (b.Callout? ==> forall k :: 0 <= k < |b.children| ==> !IsMarker(b.children[k]))
  }

  predicate AllClean(bs: seq<Block>)
  {
    forall k :: 0 <= k < |bs| ==> Clean(bs[k])
  }

  predicate NoMarkers(bs: seq<Block>)
  {
    forall k :: 0 <= k < |bs| ==> !IsMarker(bs[k])
  }

  /** Callouts that come in from the parser hold no opener or closer among their children. */
  predicate CalloutsClean(bs: seq<Block>)
  {
    forall k :: 0 <= k < |bs| && bs[k].Callout? ==> NoMarkers(bs[k].children)
  }

  /** The state keeps only clean blocks and gathers only non-marker children. */
  predicate CleanState(st: State)
  {
    AllClean(st.out) && (st.current.Some? ==> NoMarkers(st.current.value.children))
  }

  lemma AllCleanAppend(bs: seq<Block>, b: Block)
    requires AllClean(bs) && Clean(b)
    ensures AllClean(bs + [b])
  {
    var r := bs + [b];
    forall k | 0 <= k < |r|
      ensures Clean(r[k])
    {
      if k < |bs| {
        assert r[k] == bs[k];
      }
    }
  }

  lemma NoMarkersAppend(bs: seq<Block>, b: Block)
    requires NoMarkers(bs) && !IsMarker(b)
    ensures NoMarkers(bs + [b])
  {
    var r := bs + [b];
    forall k | 0 <= k < |r|
      ensures !IsMarker(r[k])
    {
      if k < |bs| {
        assert r[k] == bs[k];
      }
    }
  }

  lemma StepClean(st: State, b: Block)
    requires CleanState(st)
    requires b.Callout? ==> NoMarkers(b.children)
    ensures CleanState(Step(st, b))
  {
    if IsOpener(b) {
      assert Step(st, b).current.value.children == [];
    } else if IsCloser(b) {
      if st.current.Some? {
        var c := MakeCallout(st.current.value);
        assert Clean(c);
        AllCleanAppend(st.out, c);
      }
    } else if st.current.Some? {
      NoMarkersAppend(st.current.value.children, b);
    } else {
      assert Clean(b);
      AllCleanAppend(st.out, b);
    }
  }

  lemma {:induction false} RunClean(st: State, bs: seq<Block>)
    requires CleanState(st) && CalloutsClean(bs)
    ensures CleanState(RunFrom(st, bs))
    decreases |bs|
  {
    if bs != [] {
      assert bs[0] == bs[0 + 0];
      StepClean(st, bs[0]);
      assert forall k :: 0 <= k < |bs[1..]| ==> bs[1..][k] == bs[k + 1];
      RunClean(Step(st, bs[0]), bs[1..]);
    }
  }

  /**
   * Openers and closers never reach the output, neither at the top level nor among the
   * children of a callout, as long as the callouts that come in hold none.
   */
  lemma NoMarkersOut(bs: seq<Block>)
    requires CalloutsClean(bs)
    ensures AllClean(CalloutBlocks(bs))
  {
    RunClean(Start, bs);
  }

  /** Stray closers, outside any callout, are dropped. */
  function DropClosers(bs: seq<Block>): (r: seq<Block>)
    ensures |r| <= |bs|
    decreases |bs|
  {
    if bs == [] then []
    else if IsCloser(bs[0]) then DropClosers(bs[1..])
    else [bs[0]] + DropClosers(bs[1..])
  }

  lemma {:induction false} RunNoOpener(out: seq<Block>, bs: seq<Block>)
    requires forall k :: 0 <= k < |bs| ==> !IsOpener(bs[k])
    ensures RunFrom(State(out, None), bs) == State(out + DropClosers(bs), None)
    decreases |bs|
  {
    if bs == [] {
      assert out + [] == out;
    } else {
      var b := bs[0];
      var next := if IsCloser(b) then out else out + [b];
      assert Step(State(out, None), b) == State(next, None);
      RunNoOpener(next, bs[1..]);
      if !IsCloser(b) {
        assert out + [b] + DropClosers(bs[1..]) == out + ([b] + DropClosers(bs[1..]));
      }
    }
  }

  /** Without an opener, every block passes through in order, except the stray closers. */
  lemma PassThrough(bs: seq<Block>)
    requires forall k :: 0 <= k < |bs| ==> !IsOpener(bs[k])
    ensures CalloutBlocks(bs) == DropClosers(bs)
  {
    RunNoOpener([], bs);
  }

  /** Inside a callout, blocks that are neither openers nor closers are gathered in order. */
  lemma {:induction false} RunGather(out: seq<Block>, p: Pending, body: seq<Block>)
    requires NoMarkers(body)
    ensures RunFrom(State(out, Some(p)), body) == State(out, Some(p.(children := p.children + body)))
    decreases |body|
  {
    if body == [] {
      assert p.children + body == p.children;
    } else {
      var p' := p.(children := p.children + [body[0]]);
      RunGather(out, p', body[1..]);
      assert p.children + [body[0]] + body[1..] == p.children + body;
    }
  }

  /** The fold over two pieces is the fold over the second from where the first left off. */
  lemma {:induction false} RunAppend(st: State, a: seq<Block>, b: seq<Block>)
    ensures RunFrom(st, a + b) == RunFrom(RunFrom(st, a), b)
    decreases |a|
  {
    if a == [] {
      assert a + b == b;
    } else {
      assert (a + b)[0] == a[0];
      assert (a + b)[1..] == a[1..] + b;
      RunAppend(Step(st, a[0]), a[1..], b);
    }
  }

  /** One step adds at most one block to the output, whatever the output already holds. */
  lemma StepShift(out: seq<Block>, cur: Option<Pending>, b: Block)
    ensures Step(State(out, cur), b).out == out + Step(State([], cur), b).out
    ensures Step(State(out, cur), b).current == Step(State([], cur), b).current
    ensures |Step(State([], cur), b).out| <= 1
  {
    if IsOpener(b) {
      assert out + [] == out;
    } else if IsCloser(b) {
      if cur.None? {
        assert out + [] == out;
      }
    } else if cur.Some? {
      assert out + [] == out;
    }
  }

  /**
   * What the fold adds does not depend on what it has already produced: the output built so
   * far is only ever extended.
   */
  lemma {:induction false} RunShift(out: seq<Block>, cur: Option<Pending>, bs: seq<Block>)
    ensures RunFrom(State(out, cur), bs).out == out + RunFrom(State([], cur), bs).out
    ensures RunFrom(State(out, cur), bs).current == RunFrom(State([], cur), bs).current
    decreases |bs|
  {
    if bs == [] {
      assert out + [] == out;
    } else {
      var b := bs[0];
      StepShift(out, cur, b);
      var s1 := Step(State(out, cur), b);
      var s0 := Step(State([], cur), b);
      RunShift(s1.out, s1.current, bs[1..]);
      RunShift(s0.out, s0.current, bs[1..]);
      var x := RunFrom(State([], s0.current), bs[1..]).out;
      AppendAssoc(out, s0.out, x);
    }
  }

  lemma AppendAssoc(a: seq<Block>, b: seq<Block>, c: seq<Block>)
    ensures a + b + c == a + (b + c)
  {
  }

  /**
   * An opener, marker-free blocks and a closer become one callout of the opener's kind,
   * holding those blocks as its children in order; the text before it and after it is folded
   * on its own. A callout left open at the end of `pre` is dropped by the opener.
   */
  lemma OneCallout(pre: seq<Block>, opener: Block, body: seq<Block>, closer: Block, post: seq<Block>)
    requires IsOpener(opener) && NoMarkers(body) && IsCloser(closer)
    ensures var kind := OpenerKind(FirstContent(opener).value).value;
            CalloutBlocks(pre + [opener] + body + [closer] + post)
            == CalloutBlocks(pre) + [Callout(FirstBlock(opener), KindEmoji(kind), KindColor(kind), body)]
               + CalloutBlocks(post)
  {
    var kind := OpenerKind(FirstContent(opener).value).value;
    var p := Pending(kind, FirstBlock(opener), []);
    var s0 := RunFrom(Start, pre);
    var out0 := s0.out;
    assert s0 == State(out0, s0.current);
    var tail := [closer] + post;
    var mid := [opener] + (body + tail);
    FiveParts(pre, opener, body, closer, post);
    RunAppend(Start, pre, mid);
    RunCons(s0, opener, body + tail);
    assert Step(s0, opener) == State(out0, Some(p));
    RunAppend(State(out0, Some(p)), body, tail);
    RunGather(out0, p, body);
    var full := p.(children := [] + body);
    assert [] + body == body;
    var c := MakeCallout(full);
    RunCons(State(out0, Some(full)), closer, post);
    CloserNotOpener(closer);
    assert Step(State(out0, Some(full)), closer) == State(out0 + [c], None);
    RunShift(out0 + [c], None, post);
  }

  lemma FiveParts(pre: seq<Block>, opener: Block, body: seq<Block>, closer: Block, post: seq<Block>)
    ensures pre + [opener] + body + [closer] + post == pre + ([opener] + (body + ([closer] + post)))
  {
  }

  /** The fold over a block followed by more is one step and then the rest. */
  lemma RunCons(st: State, b: Block, bs: seq<Block>)
    ensures RunFrom(st, [b] + bs) == RunFrom(Step(st, b), bs)
  {
    assert ([b] + bs)[0] == b && ([b] + bs)[1..] == bs;
  }

  /** A callout that is never closed is lost, with everything gathered into it. */
  lemma Unterminated(pre: seq<Block>, opener: Block, body: seq<Block>)
    requires IsOpener(opener) && NoMarkers(body)
    ensures CalloutBlocks(pre + [opener] + body) == CalloutBlocks(pre)
  {
    var kind := OpenerKind(FirstContent(opener).value).value;
    var p := Pending(kind, FirstBlock(opener), []);
    var s0 := RunFrom(Start, pre);
    assert s0 == State(s0.out, s0.current);
    RunAppend(Start, pre, [opener] + body);
    ThreeParts(pre, opener, body);
    RunCons(s0, opener, body);
    assert Step(s0, opener) == State(s0.out, Some(p));
    RunGather(s0.out, p, body);
  }

  lemma ThreeParts(pre: seq<Block>, opener: Block, body: seq<Block>)
    ensures pre + [opener] + body == pre + ([opener] + body)
  {
  }

  /** A second opener discards the callout gathered so far and starts a new one. */
  lemma SecondOpener(st: State, first: Block, body: seq<Block>, second: Block, rest: seq<Block>)
    requires IsOpener(first) && NoMarkers(body) && IsOpener(second)
    ensures RunFrom(st, [first] + body + [second] + rest) == RunFrom(st, [second] + rest)
  {
    var p := Pending(OpenerKind(FirstContent(first).value).value, FirstBlock(first), []);
    assert ([first] + body + [second] + rest)[1..] == body + ([second] + rest);
    RunAppend(State(st.out, Some(p)), body, [second] + rest);
    RunGather(st.out, p, body);
  }

  /** Each block adds at most one block to the output. */
  lemma {:induction false} RunLength(st: State, bs: seq<Block>)
    ensures |RunFrom(st, bs).out| <= |st.out| + |bs|
    decreases |bs|
  {
    if bs != [] {
      StepShift(st.out, st.current, bs[0]);
      assert st == State(st.out, st.current);
      RunLength(Step(st, bs[0]), bs[1..]);
    }
  }

  lemma NoLonger(bs: seq<Block>)
    ensures |CalloutBlocks(bs)| <= |bs|
  {
    RunLength(Start, bs);
  }
}
