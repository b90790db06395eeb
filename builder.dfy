/** The expression builder of the `opt!` macro: from the segments of a
    chain it emits nested `if let C(____v) = & accessor { body } else { None }`
    expressions, the outermost for the first segment, the innermost body
    being `Some(____v)`.

    The partner of the builder is a decoder that takes such an expression
    apart again: `DecodeIfLet` recovers the check, the accessor and the
    then-block of one `if let`, and `Unnest` peels a given number of them. */
module Builder {
  import opened Tokens
  import Segmenter

  /** The token stream a call emits, or the panic it stops with. */
  datatype Expansion = Emitted(tokens: seq<Token>) | Panicked(message: string)

  datatype Maybe<T> = Nothing | Just(value: T)

  /** One `if let`: the check its pattern performs (`Required` for the bare
      pattern `(____v)`) and the accessor after `= &`. */
  datatype Layer = Layer(check: OptionalVariant, accessor: seq<Token>)

  /** One decoded `if let` with its then-block. */
  datatype Decoded = Decoded(layer: Layer, body: seq<Token>) | Malformed

  /** The layers of a nest of `if let`s, outermost first, and the innermost then-block. */
  datatype Unnested = Unnested(layers: seq<Layer>, innermost: seq<Token>) | NotNested

  const RootPanic: string := "if_let called with Root variant"

  /** The pattern `(____v)` every `if let` binds. */
  const BoundPattern: Token := Group(Parenthesis, [Binder])

  /** The else-block `{ None }`. */
  const ElseBlock: Token := Group(Brace, [Ident("None")])

  // ----- Decoding -----

  /** The argument of a call `Some(...)`, if `ts` is exactly one. */
  function SomeArgument(ts: seq<Token>): Maybe<seq<Token>> {
    if |ts| == 2 && ts[0] == Ident("Some") && ts[1].Group? && ts[1].delimiter == Parenthesis
    then Just(ts[1].stream) else Nothing
  }

  /** The check a pattern constructor stands for; `Root` when it stands for none. */
  function ConstructorCheck(t: Token): OptionalVariant {
    if t == Ident("Some") then Option
    else if t == Ident("Ok") then Ok
    else if t == Ident("Err") then Err
    else Root
  }

  /** Takes one `if let C(____v) = & accessor { body } else { None }` apart. */
  function DecodeIfLet(ts: seq<Token>): Decoded {
    if |ts| < 8 || ts[0] != Ident("if") || ts[1] != Ident("let") then Malformed
    else
      var check := if ts[2] == BoundPattern then Required else ConstructorCheck(ts[2]);
      var start := if check == Required then 3 else 4;
      if check == Root || (check != Required && ts[3] != BoundPattern) then Malformed
      else if start + 2 > |ts| - 3 then Malformed
      else if ts[start] != Punct('=') || ts[start + 1] != Punct('&') then Malformed
      else if !ts[|ts| - 3].Group? || ts[|ts| - 3].delimiter != Brace then Malformed
      else if ts[|ts| - 2] != Ident("else") || ts[|ts| - 1] != ElseBlock then Malformed
      else Decoded(Layer(check, ts[start + 2..|ts| - 3]), ts[|ts| - 3].stream)
  }

  /** Peels `depth` nested `if let`s, each found in the then-block of the previous one. */
  function Unnest(ts: seq<Token>, depth: nat): Unnested {
    if depth == 0 then Unnested([], ts)
    else
      var d := DecodeIfLet(ts);
      if d.Malformed? then NotNested
      else
        var inner := Unnest(d.body, depth - 1);
        if inner.NotNested? then NotNested
        else Unnested([d.layer] + inner.layers, inner.innermost)
  }

  /** Peeling one more level past a decoded `if let` goes into its then-block. */
  lemma {:induction false} UnnestStep(ts: seq<Token>, layer: Layer, body: seq<Token>, depth: nat)
    requires DecodeIfLet(ts) == Decoded(layer, body)
    ensures Unnest(body, depth).NotNested? ==> Unnest(ts, depth + 1) == NotNested
    ensures Unnest(body, depth).Unnested? ==>
            Unnest(ts, depth + 1) == Unnested([layer] + Unnest(body, depth).layers, Unnest(body, depth).innermost)
  {
  }

  // ----- The token builders -----

  /** `Some ( body )`. */
  function SomeWrapper(body: seq<Token>): (r: seq<Token>)
    ensures SomeArgument(r) == Just(body)
  {
    [Ident("Some"), Group(Parenthesis, body)]
  }

  /** The pattern constructor of a check: none for `Required`. */
  function Constructor(variant: OptionalVariant): seq<Token>
    requires variant != Root
  {
    match variant
    case Option => [Ident("Some")]
    case Ok => [Ident("Ok")]
    case Err => [Ident("Err")]
    case Required => []
  }

  /** `if let C ( ____v ) = & afterEq { body } else { None }`; panics on `Root`. */
  function IfLet(variant: OptionalVariant, afterEq: seq<Token>, body: seq<Token>): (r: Expansion)
    ensures r.Panicked? <==> variant == Root
    ensures r.Panicked? ==> r.message == RootPanic
  {
    if variant == Root then Panicked(RootPanic)
    else
      Emitted([Ident("if"), Ident("let")] + Constructor(variant) + [BoundPattern, Punct('='), Punct('&')]
              + afterEq + [Group(Brace, body), Ident("else"), ElseBlock])
  }

  /** Decoding what `IfLet` emits gives back its check, accessor and then-block. */
  lemma {:induction false} IfLetRoundTrip(variant: OptionalVariant, afterEq: seq<Token>, body: seq<Token>)
    requires variant != Root
    ensures DecodeIfLet(IfLet(variant, afterEq, body).tokens) == Decoded(Layer(variant, afterEq), body)
  {
    var ts := IfLet(variant, afterEq, body).tokens;
    var start := if variant == Required then 3 else 4;
    assert ts[start + 2..|ts| - 3] == afterEq;
  }

  /** The decoder accepts nothing but what `IfLet` emits. */
  lemma {:induction false} DecodeIfLetSound(ts: seq<Token>, variant: OptionalVariant, afterEq: seq<Token>, body: seq<Token>)
    requires DecodeIfLet(ts) == Decoded(Layer(variant, afterEq), body)
    ensures IfLet(variant, afterEq, body) == Emitted(ts)
  {
    var start := if variant == Required then 3 else 4;
    var head := [Ident("if"), Ident("let")] + Constructor(variant) + [BoundPattern, Punct('='), Punct('&')];
    var tail := [Group(Brace, body), Ident("else"), ElseBlock];
    assert ts[..start + 2] == head;
    assert ts[|ts| - 3..] == tail;
    assert ts == ts[..start + 2] + ts[start + 2..|ts| - 3] + ts[|ts| - 3..];
  }

  // ----- The nest `opt` builds -----

  /** The expression for segments `k` to the last, `k >= 1`: every accessor
      is `____v .` followed by the segment's tokens and the innermost body
      is `Some(____v)`. */
  function Nest(segments: seq<OptionalSegment>, k: nat): Expansion
    requires 1 <= k < |segments|
    decreases |segments| - k
  {
    var afterEq := [Binder, Punct('.')] + segments[k].tokens;
    if k == |segments| - 1 then IfLet(segments[k].variant, afterEq, SomeWrapper([Binder]))
    else
      var inner := Nest(segments, k + 1);
      if inner.Panicked? then inner else IfLet(segments[k].variant, afterEq, inner.tokens)
  }

  /** What `opt` emits for a list of segments: the first segment's `if let`
      uses its raw tokens as the accessor, and a lone segment gets an empty
      then-block. */
  function Build(segments: seq<OptionalSegment>): Expansion {
    if |segments| == 0 then Emitted([])
    else if |segments| == 1 then IfLet(segments[0].variant, segments[0].tokens, [])
    else
      var inner := Nest(segments, 1);
      if inner.Panicked? then inner else IfLet(segments[0].variant, segments[0].tokens, inner.tokens)
  }

  /** The loop of `opt` over the segments in reverse order, reassigning the
      accumulated stream and seeding it with `Some(____v)` on the first pass. */
  method Opt(input: seq<Token>) returns (out: Expansion)
    ensures out == Build(Segmenter.Split(input))
    ensures out.Panicked? <==> input == []
  {
    var resp := Segmenter.SplitOnOptionalVariants(input);
    var result: seq<Token> := [];
    var n := |resp|;
    var index := 0;
    while index < n
      invariant 0 <= index <= n
      invariant index == 0 ==> result == []
      invariant 0 < index < n ==> Nest(resp, n - index) == Emitted(result) && result != []
      invariant index == n ==> Build(resp) == Emitted(result)
    {
      var segment := resp[n - 1 - index];
      if n - 1 == index {
        BuildUnfold(resp, result);
        var r := IfLet(segment.variant, segment.tokens, result);
        if r.Panicked? {
          out := r;
          OptPanics(input);
          return;
        }
        result := r.tokens;
        index := index + 1;
        continue;
      }
      var afterEq := [Binder, Punct('.')] + segment.tokens;
      if result == [] {
        result := SomeWrapper([Binder]);
      }
      NestUnfold(resp, n - 1 - index, result);
      var r := IfLet(segment.variant, afterEq, result);
      if r.Panicked? {
        NestPropagates(resp, 1, n - 1 - index);
        out := r;
        OptPanics(input);
        return;
      }
      result := r.tokens;
      index := index + 1;
    }
    out := Emitted(result);
    OptPanics(input);
  }

  /** One step of the nest: segment `k` wraps the nest of the later ones,
      or `Some(____v)` when it is the last. */
  lemma {:induction false} NestUnfold(segments: seq<OptionalSegment>, k: nat, body: seq<Token>)
    requires 1 <= k < |segments|
    requires k == |segments| - 1 ==> body == SomeWrapper([Binder])
    requires k < |segments| - 1 ==> Nest(segments, k + 1) == Emitted(body)
    ensures Nest(segments, k) == IfLet(segments[k].variant, [Binder, Punct('.')] + segments[k].tokens, body)
    ensures Nest(segments, k).Emitted? ==> Nest(segments, k).tokens != []
  {
  }

  /** The outermost step: segment 0 wraps the nest of the others, or
      nothing when it is alone. */
  lemma {:induction false} BuildUnfold(segments: seq<OptionalSegment>, body: seq<Token>)
    requires |segments| >= 1
    requires |segments| == 1 ==> body == []
    requires |segments| > 1 ==> Nest(segments, 1) == Emitted(body)
    ensures Build(segments) == IfLet(segments[0].variant, segments[0].tokens, body)
  {
  }

  // ----- Panics -----

  lemma {:induction false} NestPropagates(segments: seq<OptionalSegment>, j: nat, k: nat)
    requires 1 <= j <= k < |segments|
    requires Nest(segments, k).Panicked?
    ensures Nest(segments, j) == Nest(segments, k)
    decreases k - j
  {
    if j < k {
      NestPropagates(segments, j + 1, k);
    }
  }

  lemma {:induction false} NestPanics(segments: seq<OptionalSegment>, k: nat)
    requires 1 <= k < |segments|
    ensures Nest(segments, k).Panicked? <==> exists j :: k <= j < |segments| && segments[j].variant == Root
    ensures Nest(segments, k).Panicked? ==> Nest(segments, k).message == RootPanic
    decreases |segments| - k
  {
    if k < |segments| - 1 {
      NestPanics(segments, k + 1);
    }
  }

  /** `opt` panics exactly when some segment is `Root`. */
  lemma {:induction false} BuildPanics(segments: seq<OptionalSegment>)
    requires |segments| >= 1
    ensures Build(segments).Panicked? <==> exists j :: 0 <= j < |segments| && segments[j].variant == Root
    ensures Build(segments).Panicked? ==> Build(segments).message == RootPanic
  {
    if |segments| >= 2 {
      NestPanics(segments, 1);
    }
  }

  /** The macro panics exactly on an empty chain. */
  lemma {:induction false} OptPanics(input: seq<Token>)
    ensures Build(Segmenter.Split(input)).Panicked? <==> input == []
  {
    var s := Segmenter.Split(input);
    BuildPanics(s);
    if input == [] {
      Segmenter.SplitVariants(input);
      assert s[0].variant == Root;
    } else {
      Segmenter.NoRootSegment(input);
    }
  }

  // ----- Shape of the output -----

  /** The layers `opt` should produce, outermost first: segment 0 with its
      raw tokens as accessor, every later segment behind `____v .`. */
  function ExpectedLayers(segments: seq<OptionalSegment>): (r: seq<Layer>)
    ensures |r| == |segments|
    ensures |r| > 0 ==> r[0] == Layer(segments[0].variant, segments[0].tokens)
    ensures forall k :: 1 <= k < |r| ==> r[k] == Layer(segments[k].variant, [Binder, Punct('.')] + segments[k].tokens)
  {
    if segments == [] then [] else [Layer(segments[0].variant, segments[0].tokens)] + InnerLayers(segments, 1)
  }

  /** The layers of segments `k` to the last, each behind `____v .`. */
  function InnerLayers(segments: seq<OptionalSegment>, k: nat): (r: seq<Layer>)
    requires k <= |segments|
    ensures |r| == |segments| - k
    ensures forall j :: k <= j < |segments| ==>
              r[j - k] == Layer(segments[j].variant, [Binder, Punct('.')] + segments[j].tokens)
    decreases |segments| - k
  {
    if k == |segments| then []
    else [Layer(segments[k].variant, [Binder, Punct('.')] + segments[k].tokens)] + InnerLayers(segments, k + 1)
  }

  lemma {:induction false} NestLayers(segments: seq<OptionalSegment>, k: nat)
    requires 1 <= k < |segments|
    requires forall j :: k <= j < |segments| ==> segments[j].variant != Root
    ensures Nest(segments, k).Emitted?
    ensures Unnest(Nest(segments, k).tokens, |segments| - k) ==
            Unnested(InnerLayers(segments, k), SomeWrapper([Binder]))
    ensures Unnest(Nest(segments, k).tokens, |segments| - k + 1) == NotNested
    decreases |segments| - k
  {
    var n := |segments|;
    if k == n - 1 {
      NestLayersLast(segments);
    } else {
      var v := segments[k].variant;
      var afterEq := [Binder, Punct('.')] + segments[k].tokens;
      NestLayers(segments, k + 1);
      var body := Nest(segments, k + 1).tokens;
      assert Nest(segments, k) == IfLet(v, afterEq, body);
      var ts := Nest(segments, k).tokens;
      IfLetRoundTrip(v, afterEq, body);
      UnnestStep(ts, Layer(v, afterEq), body, n - k - 1);
      UnnestStep(ts, Layer(v, afterEq), body, n - k);
      assert InnerLayers(segments, k) == [Layer(v, afterEq)] + InnerLayers(segments, k + 1);
    }
  }

  lemma {:induction false} NestLayersLast(segments: seq<OptionalSegment>)
    requires |segments| >= 2 && segments[|segments| - 1].variant != Root
    ensures Nest(segments, |segments| - 1).Emitted?
    ensures Unnest(Nest(segments, |segments| - 1).tokens, 1) ==
            Unnested(InnerLayers(segments, |segments| - 1), SomeWrapper([Binder]))
    ensures Unnest(Nest(segments, |segments| - 1).tokens, 2) == NotNested
  {
    var k := |segments| - 1;
    var v := segments[k].variant;
    var afterEq := [Binder, Punct('.')] + segments[k].tokens;
    var body := SomeWrapper([Binder]);
    assert InnerLayers(segments, k) == [Layer(v, afterEq)];
    assert Nest(segments, k) == IfLet(v, afterEq, body);
    var ts := Nest(segments, k).tokens;
    IfLetRoundTrip(v, afterEq, body);
    assert Unnest(body, 0) == Unnested([], body);
    assert DecodeIfLet(body).Malformed?;
    UnnestStep(ts, Layer(v, afterEq), body, 0);
    UnnestStep(ts, Layer(v, afterEq), body, 1);
  }

  /** For segments without `Root`, the output is exactly `|segments|`
      nested `if let`s whose checks and accessors are the expected layers;
      the innermost then-block is `Some(____v)`, or empty for a single
      segment. */
  lemma {:induction false} BuildLayers(segments: seq<OptionalSegment>)
    requires |segments| >= 1
    requires forall j :: 0 <= j < |segments| ==> segments[j].variant != Root
    ensures Build(segments).Emitted?
    ensures Unnest(Build(segments).tokens, |segments|) ==
            Unnested(ExpectedLayers(segments), if |segments| == 1 then [] else SomeWrapper([Binder]))
    ensures Unnest(Build(segments).tokens, |segments| + 1) == NotNested
  {
    var n := |segments|;
    var expected := ExpectedLayers(segments);
    BuildPanics(segments);
    if n == 1 {
      BuildLayersSingle(segments);
    } else {
      var v, afterEq := segments[0].variant, segments[0].tokens;
      NestLayers(segments, 1);
      var body := Nest(segments, 1).tokens;
      assert Build(segments) == IfLet(v, afterEq, body);
      IfLetRoundTrip(v, afterEq, body);
      UnnestStep(Build(segments).tokens, Layer(v, afterEq), body, n - 1);
      UnnestStep(Build(segments).tokens, Layer(v, afterEq), body, n);
    }
  }

  lemma {:induction false} BuildLayersSingle(segments: seq<OptionalSegment>)
    requires |segments| == 1 && segments[0].variant != Root
    ensures Build(segments).Emitted?
    ensures Unnest(Build(segments).tokens, 1) == Unnested(ExpectedLayers(segments), [])
    ensures Unnest(Build(segments).tokens, 2) == NotNested
  {
    var v, afterEq := segments[0].variant, segments[0].tokens;
    var expected := ExpectedLayers(segments);
    assert expected == [Layer(v, afterEq)];
    assert Build(segments) == IfLet(v, afterEq, []);
    IfLetRoundTrip(v, afterEq, []);
    assert DecodeIfLet([]).Malformed?;
    assert Unnest([], 0) == Unnested([], []);
  }


  /** End to end: for a non-empty chain, `opt` emits one `if let` per
      segment; every layer but the last checks `Some`, `Ok` or `Err`, and
      the last layer's check is decided by the last input token. */
  lemma {:induction false} OptLayers(input: seq<Token>)
    requires input != []
    ensures var s := Segmenter.Split(input);
            Build(s).Emitted? &&
            Unnest(Build(s).tokens, |s|) ==
              Unnested(ExpectedLayers(s), if |s| == 1 then [] else SomeWrapper([Binder])) &&
            (forall k :: 0 <= k < |s| - 1 ==> IsCheck(ExpectedLayers(s)[k].check)) &&
            ExpectedLayers(s)[|s| - 1].check == Segmenter.FinalVariant(input[|input| - 1])
  {
    var s := Segmenter.Split(input);
    Segmenter.NoRootSegment(input);
    Segmenter.SplitVariants(input);
    BuildLayers(s);
    CheckedLayers(s);
  }

  /** The checks of the layers are the variants of the segments. */
  lemma {:induction false} CheckedLayers(s: seq<OptionalSegment>)
    requires |s| >= 1
    requires forall k :: 0 <= k < |s| - 1 ==> IsCheck(s[k].variant)
    ensures forall k :: 0 <= k < |s| - 1 ==> IsCheck(ExpectedLayers(s)[k].check)
    ensures ExpectedLayers(s)[|s| - 1].check == s[|s| - 1].variant
  {
    var layers := ExpectedLayers(s);
    forall k | 0 <= k < |s|
      ensures layers[k].check == s[k].variant
    {
    }
  }

  /** The layers of a well-formed chain: the receiver under the first
      marker's check, every later span behind `____v .` under the check of
      the marker after it, the last under `last`. */
  function ChainLayers(head: seq<Token>, links: seq<Segmenter.Link>, last: OptionalVariant): (r: seq<Layer>)
    ensures |r| == |links| + 1
  {
    seq(|links| + 1, k requires 0 <= k <= |links| =>
      Layer(if k < |links| then links[k].check else last,
            if k == 0 then head else [Binder, Punct('.')] + links[k - 1].span))
  }

  /** What `opt!` makes of a well-formed chain: one `if let` per span, each
      testing the check of the marker after its span, the innermost
      returning `Some(____v)` (nothing at all when the chain has one span). */
  lemma {:induction false} ChainExpansion(head: seq<Token>, links: seq<Segmenter.Link>, ending: OptionalVariant)
    requires Segmenter.WellFormedChain(head, links)
    ensures var input := Segmenter.Render(head, links) + Segmenter.Ending(ending);
            var out := Build(Segmenter.Split(input));
            var last := if IsCheck(ending) then ending else Segmenter.FinalVariant(input[|input| - 1]);
            out.Emitted? &&
            Unnest(out.tokens, |links| + 1) ==
              Unnested(ChainLayers(head, links, last), if links == [] then [] else SomeWrapper([Binder]))
  {
    var input := Segmenter.Render(head, links) + Segmenter.Ending(ending);
    var s := Segmenter.Split(input);
    var last := if IsCheck(ending) then ending else Segmenter.FinalVariant(input[|input| - 1]);
    Segmenter.WellFormedChainSplit(head, links, ending);
    OptLayers(input);
    ChainLayersMatch(head, links, last);
  }

  /** The layers of the segments of a well-formed chain are its layers. */
  lemma {:induction false} ChainLayersMatch(head: seq<Token>, links: seq<Segmenter.Link>, last: OptionalVariant)
    ensures ExpectedLayers(Segmenter.ChainSegments(head, links, last)) == ChainLayers(head, links, last)
  {
    forall k | 0 <= k <= |links|
      ensures ExpectedLayers(Segmenter.ChainSegments(head, links, last))[k] == ChainLayers(head, links, last)[k]
    {
      ChainLayerAt(head, links, last, k);
    }
  }

  lemma {:induction false} ChainLayerAt(head: seq<Token>, links: seq<Segmenter.Link>, last: OptionalVariant, k: nat)
    requires k <= |links|
    ensures ExpectedLayers(Segmenter.ChainSegments(head, links, last))[k] == ChainLayers(head, links, last)[k]
  {
    var s := Segmenter.ChainSegments(head, links, last);
    assert s[k] == OptionalSegment(if k < |links| then links[k].check else last,
                                   if k == 0 then head else links[k - 1].span);
  }
}
