/** Concrete chains from the repository's demo programs and corner cases
    of the scanner, with the segments and the nest of `if let`s the macro
    produces for them. */
module Scenarios {
  import opened Tokens
  import opened Segmenter
  import opened Builder

  const Dot: Token := Punct('.')
  const Question: Token := Punct('?')
  const GetZero: Token := Group(Parenthesis, [Literal("0")])

  /** `test_struct.value?.my_vec?.get(0)?.name` */
  const VecChain: seq<Token> :=
    [Ident("test_struct"), Dot, Ident("value"), Question, Dot, Ident("my_vec"), Question, Dot,
     Ident("get"), GetZero, Question, Dot, Ident("name")]

  const VecHead: seq<Token> := [Ident("test_struct"), Dot, Ident("value")]
  const VecLinks: seq<Link> :=
    [Link(Option, [Ident("my_vec")]), Link(Option, [Ident("get"), GetZero]), Link(Option, [Ident("name")])]

  lemma {:induction false} VecChainIsWellFormed()
    ensures WellFormedChain(VecHead, VecLinks)
    ensures VecChain == Render(VecHead, VecLinks) + Ending(Required)
  {
    assert RenderLinks(VecLinks[2..]) == [Question, Dot, Ident("name")];
    assert RenderLinks(VecLinks[1..]) == [Question, Dot, Ident("get"), GetZero, Question, Dot, Ident("name")];
  }

  /** Three `?.` markers give four segments; every segment but the last is
      checked with `Some`, and the last, which has no trailing marker, is
      `Required`. */
  lemma {:induction false} VecChainSegments()
    ensures Split(VecChain) ==
      [OptionalSegment(Option, VecHead),
       OptionalSegment(Option, [Ident("my_vec")]),
       OptionalSegment(Option, [Ident("get"), GetZero]),
       OptionalSegment(Required, [Ident("name")])]
  {
    VecChainIsWellFormed();
    WellFormedChainSplit(VecHead, VecLinks, Required);
  }

  /** `user.age?` */
  const AgeChain: seq<Token> := [Ident("user"), Dot, Ident("age"), Question]

  /** A chain with one span: the closing `?` makes it a `Some` test, and the
      single `if let` has an empty then-block. */
  lemma {:induction false} AgeChainExpansion()
    ensures Split(AgeChain) == [OptionalSegment(Option, [Ident("user"), Dot, Ident("age")])]
    ensures Build(Split(AgeChain)) ==
      Emitted([Ident("if"), Ident("let"), Ident("Some"), BoundPattern, Punct('='), Punct('&'),
               Ident("user"), Dot, Ident("age"), Group(Brace, []), Ident("else"), ElseBlock])
  {
    var head := [Ident("user"), Dot, Ident("age")];
    assert AgeChain == Render(head, []) + Ending(Option);
    WellFormedChainSplit(head, [], Option);
  }

  /** `user.profile?.address?.some_field?Ok` */
  const OkChain: seq<Token> :=
    [Ident("user"), Dot, Ident("profile"), Question, Dot, Ident("address"), Question, Dot,
     Ident("some_field"), Question, Ident("Ok")]

  /** A closing `?Ok` makes the last segment an `Ok` test. */
  lemma {:induction false} OkChainSegments()
    ensures Split(OkChain) ==
      [OptionalSegment(Option, [Ident("user"), Dot, Ident("profile")]),
       OptionalSegment(Option, [Ident("address")]),
       OptionalSegment(Ok, [Ident("some_field")])]
  {
    var head := [Ident("user"), Dot, Ident("profile")];
    var links := [Link(Option, [Ident("address")]), Link(Option, [Ident("some_field")])];
    assert RenderLinks(links[1..]) == [Question, Dot, Ident("some_field")];
    assert OkChain == Render(head, links) + Ending(Ok);
    WellFormedChainSplit(head, links, Ok);
  }

  /** `test_struct.value?.some_result_field?Ok.field1?` */
  const ResultChain: seq<Token> :=
    [Ident("test_struct"), Dot, Ident("value"), Question, Dot, Ident("some_result_field"),
     Question, Ident("Ok"), Dot, Ident("field1"), Question]

  /** A `?Ok.` marker makes the span before it an `Ok` test. */
  lemma {:induction false} ResultChainSegments()
    ensures Split(ResultChain) ==
      [OptionalSegment(Option, VecHead),
       OptionalSegment(Ok, [Ident("some_result_field")]),
       OptionalSegment(Option, [Ident("field1")])]
  {
    var links := [Link(Option, [Ident("some_result_field")]), Link(Ok, [Ident("field1")])];
    assert RenderLinks(links[1..]) == [Question, Ident("Ok"), Dot, Ident("field1")];
    assert ResultChain == Render(VecHead, links) + Ending(Option);
    WellFormedChainSplit(VecHead, links, Option);
  }

  // ----- Corner cases of the scanner -----

  /** `a?Ok b`: without the `.`, the `?` and the `Ok` are lost and `b`
      joins the span. */
  lemma {:induction false} OkWithoutDot()
    ensures Split([Ident("a"), Question, Ident("Ok"), Ident("b")]) ==
      [OptionalSegment(Required, [Ident("a"), Ident("b")])]
  {
    var input := [Ident("a"), Question, Ident("Ok"), Ident("b")];
    var a, b := Keep(Ident("a")), Keep(Ident("b"));
    assert ScanAt(input, 1) == Step([b], 4);
    assert LexFrom(input, 1) == [b] + LexFrom(input, 4);
    assert Lex(input) == [a, b];
    GatherTwoKeeps(Ident("a"), Ident("b"));
    SplitOne(input, OptionalSegment(Root, [Ident("a"), Ident("b")]));
  }

  /** `a?b`: a `?` followed by neither `.`, `Ok` nor `Err` is lost. */
  lemma {:induction false} LoneQuestion()
    ensures Split([Ident("a"), Question, Ident("b")]) ==
      [OptionalSegment(Required, [Ident("a"), Ident("b")])]
  {
    var input := [Ident("a"), Question, Ident("b")];
    var a, b := Keep(Ident("a")), Keep(Ident("b"));
    assert ScanAt(input, 1) == Step([], 2);
    assert LexFrom(input, 2) == [b] + LexFrom(input, 3);
    assert LexFrom(input, 1) == [] + LexFrom(input, 2);
    assert Lex(input) == [a, b];
    GatherTwoKeeps(Ident("a"), Ident("b"));
    SplitOne(input, OptionalSegment(Root, [Ident("a"), Ident("b")]));
  }

  /** Two kept tokens make one span. */
  lemma {:induction false} GatherTwoKeeps(x: Token, y: Token)
    ensures Gather([Keep(x), Keep(y)], [], [], Root) == [OptionalSegment(Root, [x, y])]
  {
    assert [Keep(x), Keep(y)] == [Keep(x)] + [Keep(y)];
    assert [Keep(y)] == [Keep(y)] + [];
    assert [] + [x] == [x];
    assert [x] + [y] == [x, y];
    GatherOne(Keep(x), [Keep(y)], [], [], Root);
    GatherOne(Keep(y), [], [], [x], Root);
  }

  /** `?.a`: a marker before any token closes no segment; its check is
      overwritten by the final token rule, so it leaves no trace. */
  lemma {:induction false} LeadingMarker()
    ensures Split([Question, Dot, Ident("a")]) == [OptionalSegment(Required, [Ident("a")])]
  {
    var input := [Question, Dot, Ident("a")];
    var a, m := Keep(Ident("a")), Marker(Option);
    assert ScanAt(input, 0) == Step([m], 2);
    assert LexFrom(input, 2) == [a] + LexFrom(input, 3);
    assert Lex(input) == [m, a];
    assert Gather([m, a], [], [], Root) == [OptionalSegment(Option, [Ident("a")])] by {
      assert [m, a] == [m] + [a];
      assert [a] == [a] + [];
      GatherOne(m, [a], [], [], Root);
      GatherOne(a, [], [], [], Option);
      assert [] + [Ident("a")] == [Ident("a")];
    }
    SplitOne(input, OptionalSegment(Option, [Ident("a")]));
  }

  /** `a?.?Ok.b`: the second of two adjacent markers closes nothing, but it
      still makes its check the active one, so it is the check that `a`
      gets; the first marker's check leaves no trace. */
  lemma {:induction false} AdjacentMarkers()
    ensures Split([Ident("a"), Question, Dot, Question, Ident("Ok"), Dot, Ident("b")]) ==
      [OptionalSegment(Ok, [Ident("a")]), OptionalSegment(Required, [Ident("b")])]
  {
    var input := [Ident("a"), Question, Dot, Question, Ident("Ok"), Dot, Ident("b")];
    var a, b, m, k := Keep(Ident("a")), Keep(Ident("b")), Marker(Option), Marker(Ok);
    assert Lex(input) == [a, m, k, b] by {
      assert ScanAt(input, 1) == Step([m], 3);
      assert ScanAt(input, 3) == Step([k], 6);
      assert LexFrom(input, 6) == [b] + LexFrom(input, 7);
      assert LexFrom(input, 3) == [k] + LexFrom(input, 6);
      assert LexFrom(input, 1) == [m] + LexFrom(input, 3);
    }
    var first := [OptionalSegment(Root, [Ident("a")])];
    assert Gather([a, m, k, b], [], [], Root) == Gather([m, k, b], [], [Ident("a")], Root) by {
      assert [a, m, k, b] == [a] + [m, k, b];
      GatherOne(a, [m, k, b], [], [], Root);
      assert [] + [Ident("a")] == [Ident("a")];
    }
    assert Gather([m, k, b], [], [Ident("a")], Root) == Gather([k, b], first, [], Option) by {
      assert [m, k, b] == [m] + [k, b];
      GatherOne(m, [k, b], [], [Ident("a")], Root);
      assert [] + first == first;
    }
    assert Gather([k, b], first, [], Option) == Gather([b], first, [], Ok) by {
      assert [k, b] == [k] + [b];
      GatherOne(k, [b], first, [], Option);
    }
    assert Gather([b], first, [], Ok) == first + [OptionalSegment(Ok, [Ident("b")])] by {
      assert [b] == [b] + [];
      GatherOne(b, [], first, [], Ok);
      assert [] + [Ident("b")] == [Ident("b")];
    }
    SplitTwo(input, first[0], OptionalSegment(Ok, [Ident("b")]));
  }

  /** `?.`: a marker alone is one empty `Required` segment, and its
      expansion is an `if let` rather than the panic of empty input. */
  lemma {:induction false} MarkerOnly()
    ensures Split([Question, Dot]) == [OptionalSegment(Required, [])]
    ensures Build(Split([Question, Dot])).Emitted?
    ensures Build(Split([])).Panicked?
  {
    var input := [Question, Dot];
    var m := Marker(Option);
    assert ScanAt(input, 0) == Step([m], 2);
    assert Lex(input) == [m] + LexFrom(input, 2);
    assert Gather([m], [], [], Root) == [OptionalSegment(Option, [])] by {
      assert [m] == [m] + [];
      GatherOne(m, [], [], [], Root);
    }
    SplitOne(input, OptionalSegment(Option, []));
    BuildPanics([OptionalSegment(Required, [])]);
    OptPanics([]);
  }

  /** `a?.`: a trailing marker leaves an empty last segment. */
  lemma {:induction false} TrailingMarker()
    ensures Split([Ident("a"), Question, Dot]) ==
      [OptionalSegment(Option, [Ident("a")]), OptionalSegment(Required, [])]
  {
    var input := [Ident("a"), Question, Dot];
    var a, m := Keep(Ident("a")), Marker(Option);
    assert ScanAt(input, 1) == Step([m], 3);
    assert LexFrom(input, 1) == [m] + LexFrom(input, 3);
    assert Lex(input) == [a, m];
    assert Gather([a, m], [], [], Root) == [OptionalSegment(Root, [Ident("a")]), OptionalSegment(Option, [])] by {
      assert [a, m] == [a] + [m];
      assert [m] == [m] + [];
      GatherOne(a, [m], [], [], Root);
      GatherOne(m, [], [], [Ident("a")], Root);
      assert [] + [Ident("a")] == [Ident("a")];
    }
    SplitTwo(input, OptionalSegment(Root, [Ident("a")]), OptionalSegment(Option, []));
  }

  /** The expansion of `a?.` ends in the accessor `____v .` with nothing
      after the dot. */
  lemma {:induction false} TrailingMarkerExpansion()
    ensures Build(Split([Ident("a"), Question, Dot])).Emitted?
    ensures Unnest(Build(Split([Ident("a"), Question, Dot])).tokens, 2) ==
      Unnested([Layer(Option, [Ident("a")]), Layer(Required, [Binder, Dot])],
               [Ident("Some"), Group(Parenthesis, [Binder])])
  {
    var segments := [OptionalSegment(Option, [Ident("a")]), OptionalSegment(Required, [])];
    TrailingMarker();
    BuildLayers(segments);
    assert ExpectedLayers(segments) == [Layer(Option, [Ident("a")]), Layer(Required, [Binder, Dot])] by {
      assert ExpectedLayers(segments)[1] == Layer(Required, [Binder, Dot] + []);
      assert [Binder, Dot] + [] == [Binder, Dot];
    }
  }
}
