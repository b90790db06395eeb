/** The segmenter of the `opt!` macro: it scans the top-level tokens of a
    chain such as `a.b?.c?Ok.d?`, cuts them at the markers `?.`, `?Ok.` and
    `?Err.`, shifts every variant one segment to the left and finally takes
    the last segment's variant from the last input token.

    The scan is specified in two layers. `ScanAt` is one iteration of the
    source's loop: it turns the tokens at a position into at most one
    lexeme (a kept token or a recognised marker) and says where the next
    iteration starts. `Gather` then groups the lexemes into segments the
    way the loop groups them, with the accumulators the loop keeps. */
module Segmenter {
  import opened Tokens

  /** What one iteration of the scanning loop contributes. */
  datatype Lexeme = Keep(token: Token) | Marker(variant: OptionalVariant)

  /** The lexemes emitted by one iteration and the index the next one starts at. */
  datatype Step = Step(emitted: seq<Lexeme>, next: nat)

  /** One iteration of the scanning loop at index `i`. A `?` followed by `.`
      is the marker `?.`; a `?` followed by `Ok` or `Err` and then `.` is
      the marker `?Ok.` or `?Err.`; when the `.` is missing, the `?` and the
      identifier are lost and only the token after them is kept; a `?`
      followed by anything else is lost on its own. */
  function ScanAt(input: seq<Token>, i: nat): (s: Step)
    requires i < |input|
    ensures i < s.next <= |input| && |s.emitted| <= 1
    ensures input[i] != Punct('?') <==> s.emitted == [Keep(input[i])] && s.next == i + 1
  {
    if input[i] != Punct('?') then Step([Keep(input[i])], i + 1)
    else if i + 1 < |input| && input[i + 1] == Punct('.') then Step([Marker(Option)], i + 2)
    else if i + 1 < |input| && (input[i + 1] == Ident("Ok") || input[i + 1] == Ident("Err")) then
      var v := if input[i + 1] == Ident("Ok") then Ok else Err;
      if i + 2 < |input| && input[i + 2] == Punct('.') then Step([Marker(v)], i + 3)
      else if i + 2 < |input| then Step([Keep(input[i + 2])], i + 3)
      else Step([], i + 2)
    else Step([], i + 1)
  }

  /** The lexemes of the scan from index `i` to the end. */
  function LexFrom(input: seq<Token>, i: nat): seq<Lexeme>
    requires i <= |input|
    decreases |input| - i
  {
    if i == |input| then [] else
      var s := ScanAt(input, i);
      s.emitted + LexFrom(input, s.next)
  }

  function Lex(input: seq<Token>): seq<Lexeme> {
    LexFrom(input, 0)
  }

  /** The tokens the scan keeps, in order. */
  function Kept(lexemes: seq<Lexeme>): seq<Token> {
    if lexemes == [] then []
    else (if lexemes[0].Keep? then [lexemes[0].token] else []) + Kept(lexemes[1..])
  }

  /** The source spelling of a lexeme: the inverse direction of the scan. */
  function Spelling(x: Lexeme): seq<Token> {
    match x
    case Keep(t) => [t]
    case Marker(v) =>
      if v == Ok then [Punct('?'), Ident("Ok"), Punct('.')]
      else if v == Err then [Punct('?'), Ident("Err"), Punct('.')]
      else [Punct('?'), Punct('.')]
  }

  function Unlex(lexemes: seq<Lexeme>): seq<Token> {
    if lexemes == [] then [] else Spelling(lexemes[0]) + Unlex(lexemes[1..])
  }

  /** Lexemes a scan can produce from their own spelling: markers are
      `?.`, `?Ok.` or `?Err.`, and no kept token is a `?`. */
  predicate Canonical(lexemes: seq<Lexeme>) {
    forall k :: 0 <= k < |lexemes| ==> Scannable(lexemes[k])
  }

  predicate Scannable(x: Lexeme) {
    (x.Marker? ==> IsCheck(x.variant)) && (x.Keep? ==> x.token != Punct('?'))
  }

  /** The identifiers that may follow a `?` to name a result check. */
  predicate IsResultWord(t: Token) {
    t == Ident("Ok") || t == Ident("Err")
  }

  /** `kept` is `input` with some `?` tokens removed, each possibly together
      with an `Ok` or `Err` right after it, and all other tokens kept in
      their order. */
  predicate DropsOnlyMarkerWords(kept: seq<Token>, input: seq<Token>)
    decreases |input|
  {
    if input == [] then kept == []
    else
      (kept != [] && kept[0] == input[0] && DropsOnlyMarkerWords(kept[1..], input[1..])) ||
      (input[0] == Punct('?') && DropsOnlyMarkerWords(kept, input[1..])) ||
      (|input| >= 2 && input[0] == Punct('?') && IsResultWord(input[1]) &&
       DropsOnlyMarkerWords(kept, input[2..]))
  }

  /** The tokens of the chain syntax: `?`, `.`, `Ok` and `Err`. */
  predicate IsChainSyntax(t: Token) {
    t == Punct('?') || t == Punct('.') || IsResultWord(t)
  }

  /** `kept` is `input` with some `?`, `.`, `Ok` and `Err` tokens removed:
      every other token survives, in its order. */
  predicate DropsOnlyChainSyntax(kept: seq<Token>, input: seq<Token>)
    decreases |input|
  {
    if input == [] then kept == []
    else
      (kept != [] && kept[0] == input[0] && DropsOnlyChainSyntax(kept[1..], input[1..])) ||
      (IsChainSyntax(input[0]) && DropsOnlyChainSyntax(kept, input[1..]))
  }

  /** The grouping the scanning loop performs, from the state it keeps:
      the finished segments, the current span and the active variant. A
      marker closes the current span only when it is not empty, and always
      makes its own variant the active one; the final span is closed
      unconditionally. */
  function Gather(lexemes: seq<Lexeme>, done: seq<OptionalSegment>, current: seq<Token>,
                  active: OptionalVariant): (r: seq<OptionalSegment>)
    ensures |r| > |done|
    decreases |lexemes|
  {
    if lexemes == [] then done + [OptionalSegment(active, current)]
    else match lexemes[0]
      case Keep(t) => Gather(lexemes[1..], done, current + [t], active)
      case Marker(v) =>
        Gather(lexemes[1..],
               if current == [] then done else done + [OptionalSegment(active, current)],
               [], v)
  }

  /** The segments as the loop records them, before the shift. */
  function Raw(input: seq<Token>): (r: seq<OptionalSegment>)
    ensures |r| >= 1
  {
    Gather(Lex(input), [], [], Root)
  }

  /** Every segment but the last takes the variant of the one after it. */
  function Shift(raw: seq<OptionalSegment>): (r: seq<OptionalSegment>)
    ensures |r| == |raw|
  {
    seq(|raw|, k requires 0 <= k < |raw| =>
      if k + 1 < |raw| then raw[k].(variant := raw[k + 1].variant) else raw[k])
  }

  /** The variant the last input token gives the last segment. */
  function FinalVariant(last: Token): OptionalVariant {
    if last == Punct('?') then Option
    else if last == Ident("Ok") then Ok
    else if last == Ident("Err") then Err
    else Required
  }

  /** The segments `split_on_optional_variants` returns. */
  function Split(input: seq<Token>): (r: seq<OptionalSegment>)
    ensures |r| >= 1
  {
    var shifted := Shift(Raw(input));
    if input == [] then shifted
    else shifted[|shifted| - 1 := shifted[|shifted| - 1].(variant := FinalVariant(input[|input| - 1]))]
  }

  /** How `Split` relates to the segments as recorded by the scan. */
  lemma {:induction false} SplitFromRaw(input: seq<Token>)
    ensures var s, raw := Split(input), Raw(input);
            |s| == |raw| &&
            (forall k :: 0 <= k < |s| ==> s[k].tokens == raw[k].tokens) &&
            (forall k :: 0 <= k < |s| - 1 ==> s[k].variant == raw[k + 1].variant) &&
            s[|s| - 1].variant == (if input == [] then raw[|s| - 1].variant else FinalVariant(input[|input| - 1]))
  {
    var raw := Raw(input);
    var shifted := Shift(raw);
    ShiftSound(raw);
    if input == [] {
      assert Split(input) == shifted;
    } else {
      var v := FinalVariant(input[|input| - 1]);
      assert Split(input) == shifted[|shifted| - 1 := shifted[|shifted| - 1].(variant := v)];
      LastVariantSet(shifted, raw, v);
    }
  }

  /** Setting the variant of the last shifted segment keeps the rest of the shift. */
  lemma {:induction false} LastVariantSet(shifted: seq<OptionalSegment>, raw: seq<OptionalSegment>, v: OptionalVariant)
    requires |shifted| == |raw| >= 1
    requires forall k :: 0 <= k < |shifted| ==> shifted[k].tokens == raw[k].tokens
    requires forall k :: 0 <= k < |shifted| - 1 ==> shifted[k].variant == raw[k + 1].variant
    ensures var s := shifted[|shifted| - 1 := shifted[|shifted| - 1].(variant := v)];
            (forall k :: 0 <= k < |s| ==> s[k].tokens == raw[k].tokens) &&
            (forall k :: 0 <= k < |s| - 1 ==> s[k].variant == raw[k + 1].variant) &&
            s[|s| - 1].variant == v
  {
  }

  lemma {:induction false} ShiftSound(raw: seq<OptionalSegment>)
    ensures var s := Shift(raw);
            (forall k :: 0 <= k < |s| ==> s[k].tokens == raw[k].tokens) &&
            (forall k :: 0 <= k < |s| - 1 ==> s[k].variant == raw[k + 1].variant) &&
            (|s| > 0 ==> s[|s| - 1] == raw[|s| - 1])
  {
  }

  /** The segments of a non-empty input the scan records as one segment. */
  lemma {:induction false} SplitOne(input: seq<Token>, r0: OptionalSegment)
    requires input != [] && Raw(input) == [r0]
    ensures Split(input) == [OptionalSegment(FinalVariant(input[|input| - 1]), r0.tokens)]
  {
    SplitFromRaw(input);
  }

  /** The segments of a non-empty input the scan records as two segments. */
  lemma {:induction false} SplitTwo(input: seq<Token>, r0: OptionalSegment, r1: OptionalSegment)
    requires input != [] && Raw(input) == [r0, r1]
    ensures Split(input) ==
      [OptionalSegment(r1.variant, r0.tokens), OptionalSegment(FinalVariant(input[|input| - 1]), r1.tokens)]
  {
    SplitFromRaw(input);
  }

  /** The number of markers that close a non-empty span: those that
      directly follow a kept token. */
  function ClosingMarkers(lexemes: seq<Lexeme>): nat {
    if |lexemes| < 2 then 0
    else (if lexemes[0].Keep? && lexemes[1].Marker? then 1 else 0) + ClosingMarkers(lexemes[1..])
  }

  /** The scanning loop over the input tokens (a peekable iterator in the
      source, an index here), the shift of the variants and the fix-up of
      the last variant, all updating local state in place. */
  method SplitOnOptionalVariants(input: seq<Token>) returns (result: seq<OptionalSegment>)
    ensures result == Split(input)
  {
    result := [];
    var current: seq<Token> := [];
    var currentVariant := Root;
    var i := 0;
    while i < |input|
      invariant 0 <= i <= |input|
      invariant Gather(LexFrom(input, i), result, current, currentVariant) == Raw(input)
      decreases |input| - i
    {
      ghost var step := ScanAt(input, i);
      ghost var rest := LexFrom(input, step.next);
      ghost var done0, current0, active0 := result, current, currentVariant;
      assert LexFrom(input, i) == step.emitted + rest;
      var tt := input[i];
      i := i + 1;
      if tt == Punct('?') {
        var recognised := false;
        var v := Root;
        if i < |input| && input[i] == Punct('.') {
          i := i + 1;
          recognised, v := true, Option;
        } else if i < |input| && (input[i] == Ident("Ok") || input[i] == Ident("Err")) {
          var kind := if input[i] == Ident("Ok") then Ok else Err;
          i := i + 1;
          if i < |input| && input[i] == Punct('.') {
            i := i + 1;
            recognised, v := true, kind;
          } else if i < |input| {
            assert step.emitted == [Keep(input[i])];
            GatherOne(Keep(input[i]), rest, done0, current0, active0);
            current := current + [input[i]];
            i := i + 1;
          }
        }
        if recognised {
          assert step.emitted == [Marker(v)];
          GatherOne(Marker(v), rest, done0, current0, active0);
          if current != [] {
            result := result + [OptionalSegment(currentVariant, current)];
            current := [];
          }
          currentVariant := v;
        }
      } else {
        assert step.emitted == [Keep(tt)];
        GatherOne(Keep(tt), rest, done0, current0, active0);
        current := current + [tt];
      }
      assert i == step.next;
      if step.emitted == [] {
        assert step.emitted + rest == rest;
      }
    }
    result := result + [OptionalSegment(currentVariant, current)];

    ghost var raw := result;
    for k := 0 to |result| - 1
      invariant |result| == |raw|
      invariant forall j :: 0 <= j < k ==> result[j] == raw[j].(variant := raw[j + 1].variant)
      invariant forall j :: k <= j < |raw| ==> result[j] == raw[j]
    {
      result := result[k := result[k].(variant := result[k + 1].variant)];
    }
    assert result == Shift(raw);

    if |input| == 0 {
      return;
    }
    var last := |result| - 1;
    result := result[last := result[last].(variant := FinalVariant(input[|input| - 1]))];
  }

  /** Unfolding `Gather` on its first lexeme. */
  lemma {:induction false} GatherOne(x: Lexeme, rest: seq<Lexeme>, done: seq<OptionalSegment>,
                  current: seq<Token>, active: OptionalVariant)
    ensures Gather([x] + rest, done, current, active) ==
            if x.Keep? then Gather(rest, done, current + [x.token], active)
            else Gather(rest, if current == [] then done else done + [OptionalSegment(active, current)],
                        [], x.variant)
  {
    assert ([x] + rest)[0] == x;
    assert ([x] + rest)[1..] == rest;
  }

  // ----- The number of segments -----

  lemma {:induction false} GatherCount(lexemes: seq<Lexeme>, done: seq<OptionalSegment>,
                                       current: seq<Token>, active: OptionalVariant)
    ensures |Gather(lexemes, done, current, active)| ==
            |done| + 1 + ClosingMarkers(lexemes) +
            (if current != [] && lexemes != [] && lexemes[0].Marker? then 1 else 0)
    decreases |lexemes|
  {
    if lexemes != [] {
      match lexemes[0]
      case Keep(t) =>
        GatherCount(lexemes[1..], done, current + [t], active);
      case Marker(v) =>
        GatherCount(lexemes[1..],
                    if current == [] then done else done + [OptionalSegment(active, current)],
                    [], v);
    }
  }

  /** One segment plus one per marker that closes a non-empty span. */
  lemma {:induction false} SegmentCount(input: seq<Token>)
    ensures |Split(input)| == 1 + ClosingMarkers(Lex(input))
  {
    GatherCount(Lex(input), [], [], Root);
  }

  // ----- Non-empty spans -----

  /** Every segment except possibly the last has a non-empty span. */
  predicate InnerSpansNonEmpty(segments: seq<OptionalSegment>) {
    forall k :: 0 <= k < |segments| - 1 ==> segments[k].tokens != []
  }

  lemma {:induction false} GatherSpans(lexemes: seq<Lexeme>, done: seq<OptionalSegment>,
                                       current: seq<Token>, active: OptionalVariant)
    requires forall k :: 0 <= k < |done| ==> done[k].tokens != []
    ensures InnerSpansNonEmpty(Gather(lexemes, done, current, active))
    decreases |lexemes|
  {
    if lexemes != [] {
      match lexemes[0]
      case Keep(t) =>
        GatherSpans(lexemes[1..], done, current + [t], active);
      case Marker(v) =>
        GatherSpans(lexemes[1..],
                    if current == [] then done else done + [OptionalSegment(active, current)],
                    [], v);
    }
  }

  /** Every segment except possibly the last has a non-empty span. */
  lemma {:induction false} SpansNonEmpty(input: seq<Token>)
    ensures InnerSpansNonEmpty(Split(input))
  {
    GatherSpans(Lex(input), [], [], Root);
    SplitFromRaw(input);
  }

  // ----- Token preservation -----

  lemma {:induction false} SpansAppend(done: seq<OptionalSegment>, seg: OptionalSegment)
    ensures Spans(done + [seg]) == Spans(done) + [seg.tokens]
  {
  }

  lemma {:induction false} GatherTokens(lexemes: seq<Lexeme>, done: seq<OptionalSegment>,
                                        current: seq<Token>, active: OptionalVariant)
    ensures Concat(Spans(Gather(lexemes, done, current, active))) ==
            Concat(Spans(done)) + current + Kept(lexemes)
    decreases |lexemes|
  {
    if lexemes == [] {
      ConcatSpansAppend(done, OptionalSegment(active, current));
    } else {
      var x, rest := lexemes[0], lexemes[1..];
      assert lexemes == [x] + rest;
      if x.Keep? {
        GatherTokens(rest, done, current + [x.token], active);
        GatherTokensKeep(x.token, rest, done, current, active);
      } else {
        var done' := if current == [] then done else done + [OptionalSegment(active, current)];
        GatherTokens(rest, done', [], x.variant);
        GatherTokensMarker(x.variant, rest, done, current, active, done');
      }
    }
  }

  lemma {:induction false} GatherTokensKeep(t: Token, rest: seq<Lexeme>, done: seq<OptionalSegment>,
                                            current: seq<Token>, active: OptionalVariant)
    requires Concat(Spans(Gather(rest, done, current + [t], active))) ==
             Concat(Spans(done)) + (current + [t]) + Kept(rest)
    ensures Concat(Spans(Gather([Keep(t)] + rest, done, current, active))) ==
            Concat(Spans(done)) + current + Kept([Keep(t)] + rest)
  {
    GatherOne(Keep(t), rest, done, current, active);
    assert ([Keep(t)] + rest)[1..] == rest;
    assert Kept([Keep(t)] + rest) == [t] + Kept(rest);
  }

  lemma {:induction false} GatherTokensMarker(v: OptionalVariant, rest: seq<Lexeme>, done: seq<OptionalSegment>,
                                              current: seq<Token>, active: OptionalVariant, done': seq<OptionalSegment>)
    requires done' == if current == [] then done else done + [OptionalSegment(active, current)]
    requires Concat(Spans(Gather(rest, done', [], v))) == Concat(Spans(done')) + [] + Kept(rest)
    ensures Concat(Spans(Gather([Marker(v)] + rest, done, current, active))) ==
            Concat(Spans(done)) + current + Kept([Marker(v)] + rest)
  {
    GatherOne(Marker(v), rest, done, current, active);
    assert Kept([Marker(v)] + rest) == Kept(rest) by {
      assert ([Marker(v)] + rest)[1..] == rest;
    }
    if current != [] {
      ClosedSpan(Gather(rest, done', [], v), done, OptionalSegment(active, current), Kept(rest));
    }
  }

  /** Closing a span moves its tokens from the current span into the spans. */
  lemma {:induction false} ClosedSpan(r: seq<OptionalSegment>, done: seq<OptionalSegment>, seg: OptionalSegment,
                                      kept: seq<Token>)
    requires Concat(Spans(r)) == Concat(Spans(done + [seg])) + [] + kept
    ensures Concat(Spans(r)) == Concat(Spans(done)) + seg.tokens + kept
  {
    ConcatSpansAppend(done, seg);
  }

  lemma {:induction false} ConcatSpansAppend(done: seq<OptionalSegment>, seg: OptionalSegment)
    ensures Concat(Spans(done + [seg])) == Concat(Spans(done)) + seg.tokens
  {
    SpansAppend(done, seg);
    ConcatAppend(Spans(done), [seg.tokens]);
    assert Concat([seg.tokens]) == seg.tokens + Concat([]);
  }

  /** The segments' spans laid end to end are exactly the tokens the scan keeps. */
  lemma {:induction false} TokensPreserved(input: seq<Token>)
    ensures Concat(Spans(Split(input))) == Kept(Lex(input))
  {
    GatherTokens(Lex(input), [], [], Root);
    assert Spans(Split(input)) == Spans(Raw(input));
  }

  lemma {:induction false} DropsKeep(t: Token, kept: seq<Token>, input: seq<Token>)
    requires DropsOnlyMarkerWords(kept, input)
    ensures DropsOnlyMarkerWords([t] + kept, [t] + input)
  {
    assert ([t] + kept)[1..] == kept;
    assert ([t] + input)[1..] == input;
  }

  lemma {:induction false} DropsSkip(t: Token, kept: seq<Token>, input: seq<Token>)
    requires t == Punct('?') && DropsOnlyMarkerWords(kept, input)
    ensures DropsOnlyMarkerWords(kept, [t] + input)
  {
    assert ([t] + input)[1..] == input;
  }

  lemma {:induction false} DropsSkipPair(t: Token, kept: seq<Token>, input: seq<Token>)
    requires IsResultWord(t) && DropsOnlyMarkerWords(kept, input)
    ensures DropsOnlyMarkerWords(kept, [Punct('?'), t] + input)
  {
    assert ([Punct('?'), t] + input)[2..] == input;
  }

  lemma {:induction false} UnlexAppend(a: seq<Lexeme>, b: seq<Lexeme>)
    ensures Unlex(a + b) == Unlex(a) + Unlex(b)
  {
    if a != [] {
      assert (a + b)[0] == a[0] && (a + b)[1..] == a[1..] + b;
      UnlexAppend(a[1..], b);
      assert Unlex(a + b) == Spelling(a[0]) + Unlex(a[1..] + b);
      assert Unlex(a) == Spelling(a[0]) + Unlex(a[1..]);
    } else {
      assert a + b == b;
    }
  }

  /** One iteration loses only `?`, `Ok` and `Err` tokens. */
  lemma {:induction false} StepDrops(input: seq<Token>, i: nat, u: seq<Token>)
    requires i < |input|
    requires DropsOnlyMarkerWords(u, input[ScanAt(input, i).next..])
    ensures DropsOnlyMarkerWords(Unlex(ScanAt(input, i).emitted) + u, input[i..])
  {
    var s := ScanAt(input, i);
    assert input[i..] == [input[i]] + input[i + 1..];
    if s.next == i + 1 {
      if s.emitted == [] {
        assert Unlex(s.emitted) + u == u;
        DropsSkip(input[i], u, input[i + 1..]);
      } else {
        assert Unlex(s.emitted) + u == [input[i]] + u;
        DropsKeep(input[i], u, input[i + 1..]);
      }
    } else if s.next == i + 2 {
      assert input[i + 1..] == [input[i + 1]] + input[i + 2..];
      if s.emitted == [] {
        assert Unlex(s.emitted) + u == u;
        assert input[i..] == [Punct('?'), input[i + 1]] + input[i + 2..];
        DropsSkipPair(input[i + 1], u, input[i + 2..]);
      } else {
        assert Unlex(s.emitted) + u == [input[i]] + ([input[i + 1]] + u);
        DropsKeep(input[i + 1], u, input[i + 2..]);
        DropsKeep(input[i], [input[i + 1]] + u, input[i + 1..]);
      }
    } else {
      StepDropsThree(input, i, u);
    }
  }

  /** The iterations that look at three tokens: `?Ok.`, `?Err.`, or `?Ok`
      / `?Err` followed by some other token, which alone is kept. */
  lemma {:induction false} StepDropsThree(input: seq<Token>, i: nat, u: seq<Token>)
    requires i < |input| && ScanAt(input, i).next == i + 3
    requires DropsOnlyMarkerWords(u, input[i + 3..])
    ensures DropsOnlyMarkerWords(Unlex(ScanAt(input, i).emitted) + u, input[i..])
  {
    var s := ScanAt(input, i);
    assert input[i..] == [input[i]] + input[i + 1..];
    assert input[i + 1..] == [input[i + 1]] + input[i + 2..];
    assert input[i + 2..] == [input[i + 2]] + input[i + 3..];
    DropsKeep(input[i + 2], u, input[i + 3..]);
    if s.emitted[0].Marker? {
      assert Unlex(s.emitted) + u == [input[i]] + ([input[i + 1]] + ([input[i + 2]] + u));
      DropsKeep(input[i + 1], [input[i + 2]] + u, input[i + 2..]);
      DropsKeep(input[i], [input[i + 1]] + ([input[i + 2]] + u), input[i + 1..]);
    } else {
      assert Unlex(s.emitted) + u == [input[i + 2]] + u;
      assert input[i..] == [Punct('?'), input[i + 1]] + input[i + 2..];
      DropsSkipPair(input[i + 1], [input[i + 2]] + u, input[i + 2..]);
    }
  }

  lemma {:induction false} LexFromDrops(input: seq<Token>, i: nat)
    requires i <= |input|
    ensures DropsOnlyMarkerWords(Unlex(LexFrom(input, i)), input[i..])
    decreases |input| - i
  {
    if i < |input| {
      var s := ScanAt(input, i);
      LexFromDrops(input, s.next);
      UnlexAppend(s.emitted, LexFrom(input, s.next));
      StepDrops(input, i, Unlex(LexFrom(input, s.next)));
    }
  }

  /** The scan only ever loses `?`, `Ok` and `Err` tokens: spelling its
      lexemes back out gives the input minus such tokens, in order. */
  lemma {:induction false} LexDropsOnlyMarkerWords(input: seq<Token>)
    ensures DropsOnlyMarkerWords(Unlex(Lex(input)), input)
  {
    LexFromDrops(input, 0);
    assert input[0..] == input;
  }

  // ----- The spans against the input -----

  /** A scan that drops only marker words drops only chain syntax. */
  lemma {:induction false} MarkerWordsAreChainSyntax(kept: seq<Token>, input: seq<Token>)
    requires DropsOnlyMarkerWords(kept, input)
    ensures DropsOnlyChainSyntax(kept, input)
    decreases |input|
  {
    if input == [] {
    } else if kept != [] && kept[0] == input[0] && DropsOnlyMarkerWords(kept[1..], input[1..]) {
      MarkerWordsAreChainSyntax(kept[1..], input[1..]);
    } else if input[0] == Punct('?') && DropsOnlyMarkerWords(kept, input[1..]) {
      MarkerWordsAreChainSyntax(kept, input[1..]);
    } else {
      MarkerWordsAreChainSyntax(kept, input[2..]);
      assert input[1..][1..] == input[2..];
      assert DropsOnlyChainSyntax(kept, input[1..]);
    }
  }

  /** Chain syntax in front of the input may be dropped as a whole. */
  lemma {:induction false} ChainSyntaxSkip(kept: seq<Token>, prefix: seq<Token>, ys: seq<Token>)
    requires forall k :: 0 <= k < |prefix| ==> IsChainSyntax(prefix[k])
    requires DropsOnlyChainSyntax(kept, ys)
    ensures DropsOnlyChainSyntax(kept, prefix + ys)
    decreases |prefix|
  {
    if prefix == [] {
      assert prefix + ys == ys;
    } else {
      ChainSyntaxSkip(kept, prefix[1..], ys);
      assert (prefix + ys)[1..] == prefix[1..] + ys;
      assert (prefix + ys)[0] == prefix[0];
    }
  }

  /** The kept tokens are the spelling of the lexemes with the markers'
      spellings, which are chain syntax, removed. */
  lemma {:induction false} KeptDropsChainSyntax(lexemes: seq<Lexeme>)
    ensures DropsOnlyChainSyntax(Kept(lexemes), Unlex(lexemes))
  {
    if lexemes != [] {
      var rest := lexemes[1..];
      KeptDropsChainSyntax(rest);
      match lexemes[0]
      case Keep(t) =>
        assert Kept(lexemes) == [t] + Kept(rest);
        assert Unlex(lexemes) == [t] + Unlex(rest);
        assert ([t] + Kept(rest))[1..] == Kept(rest);
        assert ([t] + Unlex(rest))[1..] == Unlex(rest);
      case Marker(v) =>
        assert Kept(lexemes) == Kept(rest);
        ChainSyntaxSkip(Kept(rest), Spelling(lexemes[0]), Unlex(rest));
    }
  }

  lemma {:induction false} ChainSyntaxTrans(xs: seq<Token>, ys: seq<Token>, zs: seq<Token>)
    requires DropsOnlyChainSyntax(xs, ys) && DropsOnlyChainSyntax(ys, zs)
    ensures DropsOnlyChainSyntax(xs, zs)
    decreases |zs|
  {
    if zs == [] {
    } else if ys != [] && ys[0] == zs[0] && DropsOnlyChainSyntax(ys[1..], zs[1..]) {
      if xs != [] && xs[0] == ys[0] && DropsOnlyChainSyntax(xs[1..], ys[1..]) {
        ChainSyntaxTrans(xs[1..], ys[1..], zs[1..]);
      } else {
        ChainSyntaxTrans(xs, ys[1..], zs[1..]);
      }
    } else {
      ChainSyntaxTrans(xs, ys, zs[1..]);
    }
  }

  /** The segmenter keeps every token of the input that is not `?`, `.`,
      `Ok` or `Err`, in its order, and invents none. */
  lemma {:induction false} SpansKeepAllOthers(input: seq<Token>)
    ensures DropsOnlyChainSyntax(Concat(Spans(Split(input))), input)
  {
    TokensPreserved(input);
    KeptDropsChainSyntax(Lex(input));
    LexDropsOnlyMarkerWords(input);
    MarkerWordsAreChainSyntax(Unlex(Lex(input)), input);
    ChainSyntaxTrans(Kept(Lex(input)), Unlex(Lex(input)), input);
  }

  /** `xs` is `ys` with some elements removed, the rest in their order. */
  predicate IsSubsequence(xs: seq<Token>, ys: seq<Token>)
    decreases |ys|
  {
    if ys == [] then xs == []
    else (xs != [] && xs[0] == ys[0] && IsSubsequence(xs[1..], ys[1..])) || IsSubsequence(xs, ys[1..])
  }

  lemma {:induction false} ChainSyntaxSubsequence(xs: seq<Token>, ys: seq<Token>)
    requires DropsOnlyChainSyntax(xs, ys)
    ensures IsSubsequence(xs, ys)
    decreases |ys|
  {
    if ys != [] {
      if xs != [] && xs[0] == ys[0] && DropsOnlyChainSyntax(xs[1..], ys[1..]) {
        ChainSyntaxSubsequence(xs[1..], ys[1..]);
      } else {
        ChainSyntaxSubsequence(xs, ys[1..]);
      }
    }
  }

  /** The segmenter invents no token and reorders none: the spans laid end
      to end are the input with some tokens removed. */
  lemma {:induction false} SpansSubsequence(input: seq<Token>)
    ensures IsSubsequence(Concat(Spans(Split(input))), input)
  {
    SpansKeepAllOthers(input);
    ChainSyntaxSubsequence(Concat(Spans(Split(input))), input);
  }

  /** Scanning only looks forward: a prefix before the scan position does not matter. */
  lemma {:induction false} LexFromSuffix(prefix: seq<Token>, tail: seq<Token>, j: nat)
    requires j <= |tail|
    ensures LexFrom(prefix + tail, |prefix| + j) == LexFrom(tail, j)
    decreases |tail| - j
  {
    var input := prefix + tail;
    if j < |tail| {
      var s := ScanAt(tail, j);
      ScanAtSuffix(prefix, tail, j);
      assert LexFrom(input, |prefix| + j) == s.emitted + LexFrom(input, |prefix| + s.next);
      LexFromSuffix(prefix, tail, s.next);
    }
  }

  /** One iteration looks at no token before its own position. */
  lemma {:induction false} ScanAtSuffix(prefix: seq<Token>, tail: seq<Token>, j: nat)
    requires j < |tail|
    ensures ScanAt(prefix + tail, |prefix| + j) ==
            Step(ScanAt(tail, j).emitted, |prefix| + ScanAt(tail, j).next)
  {
    var input, p := prefix + tail, |prefix|;
    assert input[p + j] == tail[j];
    if j + 1 < |tail| {
      assert input[p + j + 1] == tail[j + 1];
    }
    if j + 2 < |tail| {
      assert input[p + j + 2] == tail[j + 2];
    }
  }

  /** What may close a chain after its last span: a lone `?` (checked
      with `Some`), `?Ok` or `?Err`; any other variant closes it with
      nothing. */
  function Ending(v: OptionalVariant): (r: seq<Token>)
    ensures IsCheck(v) <==> r != []
    ensures r != [] ==> r[0] == Punct('?') && |r| <= 2
  {
    if v == Option then [Punct('?')]
    else if v == Ok then [Punct('?'), Ident("Ok")]
    else if v == Err then [Punct('?'), Ident("Err")]
    else []
  }

  lemma {:induction false} LexEnding(v: OptionalVariant)
    ensures Lex(Ending(v)) == []
  {
    var e := Ending(v);
    if e != [] {
      assert ScanAt(e, 0) == Step([], |e|);
      assert Lex(e) == [] + LexFrom(e, |e|);
    }
  }

  /** The scan recognises a lexeme from its spelling whatever follows. */
  lemma {:induction false} LexSpelling(x: Lexeme, tail: seq<Token>)
    requires Scannable(x)
    ensures Lex(Spelling(x) + tail) == [x] + Lex(tail)
  {
    var input := Spelling(x) + tail;
    assert ScanAt(input, 0) == Step([x], |Spelling(x)|);
    LexFromSuffix(Spelling(x), tail, 0);
  }

  /** Recognising a marker is the inverse of spelling it, and a closing
      `?`, `?Ok` or `?Err` adds no lexeme. */
  lemma {:induction false} LexUnlexEnding(lexemes: seq<Lexeme>, v: OptionalVariant)
    requires Canonical(lexemes)
    ensures Lex(Unlex(lexemes) + Ending(v)) == lexemes
  {
    if lexemes == [] {
      assert Unlex(lexemes) + Ending(v) == Ending(v);
      LexEnding(v);
    } else {
      CanonicalTail(lexemes);
      LexUnlexEnding(lexemes[1..], v);
      LexUnlexCons(lexemes[0], lexemes[1..], v);
      assert [lexemes[0]] + lexemes[1..] == lexemes;
    }
  }

  lemma {:induction false} CanonicalTail(lexemes: seq<Lexeme>)
    requires Canonical(lexemes) && lexemes != []
    ensures Scannable(lexemes[0]) && Canonical(lexemes[1..])
  {
    forall k | 0 <= k < |lexemes| - 1
      ensures Scannable(lexemes[1..][k])
    {
      assert lexemes[1..][k] == lexemes[k + 1];
    }
  }

  lemma {:induction false} LexUnlexCons(x: Lexeme, rest: seq<Lexeme>, v: OptionalVariant)
    requires Scannable(x)
    requires Lex(Unlex(rest) + Ending(v)) == rest
    ensures Lex(Unlex([x] + rest) + Ending(v)) == [x] + rest
  {
    var tail := Unlex(rest) + Ending(v);
    assert ([x] + rest)[1..] == rest;
    assert Unlex([x] + rest) + Ending(v) == Spelling(x) + tail;
    LexSpelling(x, tail);
  }

  /** Every canonical lexeme sequence is what the scan makes of its own
      spelling. */
  lemma {:induction false} LexUnlex(lexemes: seq<Lexeme>)
    requires Canonical(lexemes)
    ensures Lex(Unlex(lexemes)) == lexemes
  {
    LexUnlexEnding(lexemes, Required);
    assert Unlex(lexemes) + Ending(Required) == Unlex(lexemes);
  }

  // ----- Inputs without any `?` -----

  lemma {:induction false} LexFromPlain(input: seq<Token>, i: nat)
    requires i <= |input|
    requires forall k :: 0 <= k < |input| ==> input[k] != Punct('?')
    ensures forall k :: 0 <= k < |LexFrom(input, i)| ==> LexFrom(input, i)[k].Keep?
    ensures Kept(LexFrom(input, i)) == input[i..]
    decreases |input| - i
  {
    if i < |input| {
      LexFromPlain(input, i + 1);
      var rest := LexFrom(input, i + 1);
      assert LexFrom(input, i) == [Keep(input[i])] + rest;
      assert ([Keep(input[i])] + rest)[1..] == rest;
      assert input[i..] == [input[i]] + input[i + 1..];
    }
  }

  lemma {:induction false} NoMarkersNoClosing(lexemes: seq<Lexeme>)
    requires forall k :: 0 <= k < |lexemes| ==> lexemes[k].Keep?
    ensures ClosingMarkers(lexemes) == 0
  {
    if |lexemes| >= 2 {
      assert lexemes[1].Keep?;
      NoMarkersNoClosing(lexemes[1..]);
    }
  }

  /** A chain without any `?` is one segment holding the whole input. */
  lemma {:induction false} NoMarkerSingleSegment(input: seq<Token>)
    requires input != []
    requires forall k :: 0 <= k < |input| ==> input[k] != Punct('?')
    ensures Split(input) == [OptionalSegment(FinalVariant(input[|input| - 1]), input)]
  {
    LexFromPlain(input, 0);
    assert input[0..] == input;
    NoMarkersNoClosing(Lex(input));
    SegmentCount(input);
    SplitFromRaw(input);
    TokensPreserved(input);
    var s := Split(input);
    assert |s| == 1;
    assert Spans(s) == [s[0].tokens];
    assert Concat(Spans(s)) == s[0].tokens + Concat([]);
    assert Kept(Lex(input)) == input;
    assert s[0].tokens == input;
    assert s[0].variant == FinalVariant(input[|input| - 1]);
  }

  // ----- Variants -----

  /** Every marker lexeme carries the check of a marker. */
  predicate MarkersChecked(lexemes: seq<Lexeme>) {
    forall k :: 0 <= k < |lexemes| ==> lexemes[k].Marker? ==> IsCheck(lexemes[k].variant)
  }

  /** Every segment after the first carries the check of a marker. */
  predicate LaterChecked(segments: seq<OptionalSegment>) {
    forall k :: 1 <= k < |segments| ==> IsCheck(segments[k].variant)
  }

  lemma {:induction false} GatherVariants(lexemes: seq<Lexeme>, done: seq<OptionalSegment>,
                                          current: seq<Token>, active: OptionalVariant)
    requires MarkersChecked(lexemes) && LaterChecked(done)
    requires |done| >= 1 ==> IsCheck(active)
    ensures LaterChecked(Gather(lexemes, done, current, active))
    decreases |lexemes|
  {
    if lexemes != [] {
      assert MarkersChecked(lexemes[1..]) by {
        forall k | 0 <= k < |lexemes| - 1 ensures lexemes[1..][k] == lexemes[k + 1] { }
      }
      match lexemes[0]
      case Keep(t) =>
        GatherVariants(lexemes[1..], done, current + [t], active);
      case Marker(v) =>
        assert IsCheck(v) by { assert lexemes[0].Marker?; }
        GatherVariants(lexemes[1..],
                       if current == [] then done else done + [OptionalSegment(active, current)],
                       [], v);
    }
  }

  lemma {:induction false} LexFromMarkers(input: seq<Token>, i: nat)
    requires i <= |input|
    ensures MarkersChecked(LexFrom(input, i))
    decreases |input| - i
  {
    if i < |input| {
      var s := ScanAt(input, i);
      LexFromMarkers(input, s.next);
      var l, rest := LexFrom(input, i), LexFrom(input, s.next);
      assert l == s.emitted + rest;
      forall k | 0 <= k < |l| && l[k].Marker? ensures IsCheck(l[k].variant) {
        if k >= |s.emitted| {
          assert l[k] == rest[k - |s.emitted|];
        }
      }
    }
  }

  /** After the shift every segment but the last carries the variant the
      next segment was recorded with, which is always the check of a
      marker; the last variant comes from the last input token alone; an
      empty input leaves a single empty `Root` segment. */
  lemma {:induction false} SplitVariants(input: seq<Token>)
    ensures var s, raw := Split(input), Raw(input);
            |s| == |raw| &&
            (forall k :: 0 <= k < |s| ==> s[k].tokens == raw[k].tokens) &&
            (forall k :: 0 <= k < |s| - 1 ==> s[k].variant == raw[k + 1].variant) &&
            (forall k :: 0 <= k < |s| - 1 ==> IsCheck(s[k].variant))
    ensures input != [] ==> Split(input)[|Split(input)| - 1].variant == FinalVariant(input[|input| - 1])
    ensures input == [] ==> Split(input) == [OptionalSegment(Root, [])]
  {
    LexFromMarkers(input, 0);
    GatherVariants(Lex(input), [], [], Root);
    SplitFromRaw(input);
    if input == [] {
      assert Lex(input) == [];
    }
  }

  /** No segment of a non-empty chain is `Root`, and `Required` can only be last. */
  lemma {:induction false} NoRootSegment(input: seq<Token>)
    requires input != []
    ensures var s := Split(input);
            (forall k :: 0 <= k < |s| ==> s[k].variant != Root) &&
            (forall k :: 0 <= k < |s| - 1 ==> s[k].variant != Required)
  {
    var s := Split(input);
    SplitVariants(input);
    forall k | 0 <= k < |s|
      ensures s[k].variant != Root && (k < |s| - 1 ==> s[k].variant != Required)
    {
      if k < |s| - 1 {
        assert IsCheck(s[k].variant);
      } else {
        assert s[k].variant == FinalVariant(input[|input| - 1]);
      }
    }
  }

  // ----- Well-formed chains -----

  /** A marker and the span that follows it. */
  datatype Link = Link(check: OptionalVariant, span: seq<Token>)

  /** The source text of a chain: the receiver span, then every link's
      marker followed by its span. */
  function Render(head: seq<Token>, links: seq<Link>): seq<Token> {
    head + RenderLinks(links)
  }

  function RenderLinks(links: seq<Link>): seq<Token> {
    if links == [] then [] else Spelling(Marker(links[0].check)) + links[0].span + RenderLinks(links[1..])
  }

  /** A chain whose spans are not empty and contain no `?`, and whose
      markers are `?.`, `?Ok.` or `?Err.`. */
  predicate WellFormedChain(head: seq<Token>, links: seq<Link>) {
    head != [] && (forall k :: 0 <= k < |head| ==> head[k] != Punct('?')) &&
    forall k :: 0 <= k < |links| ==>
      IsCheck(links[k].check) && links[k].span != [] &&
      forall m :: 0 <= m < |links[k].span| ==> links[k].span[m] != Punct('?')
  }

  function Keeps(ts: seq<Token>): (r: seq<Lexeme>)
    ensures |r| == |ts|
  {
    seq(|ts|, k requires 0 <= k < |ts| => Keep(ts[k]))
  }

  function LinkLexemes(links: seq<Link>): seq<Lexeme> {
    if links == [] then [] else [Marker(links[0].check)] + Keeps(links[0].span) + LinkLexemes(links[1..])
  }

  function LinkSegments(links: seq<Link>): (r: seq<OptionalSegment>)
    ensures |r| == |links|
  {
    seq(|links|, k requires 0 <= k < |links| => OptionalSegment(links[k].check, links[k].span))
  }

  lemma {:induction false} UnlexKeeps(ts: seq<Token>)
    ensures Unlex(Keeps(ts)) == ts
  {
    if ts != [] {
      UnlexKeeps(ts[1..]);
      assert Keeps(ts)[1..] == Keeps(ts[1..]);
    }
  }

  lemma {:induction false} UnlexLinks(links: seq<Link>)
    ensures Unlex(LinkLexemes(links)) == RenderLinks(links)
  {
    if links != [] {
      var l := links[0];
      UnlexLinks(links[1..]);
      UnlexKeeps(l.span);
      UnlexAppend([Marker(l.check)] + Keeps(l.span), LinkLexemes(links[1..]));
      UnlexAppend([Marker(l.check)], Keeps(l.span));
      assert Unlex([Marker(l.check)]) == Spelling(Marker(l.check)) + Unlex([]);
    }
  }

  lemma {:induction false} LinkLexemesCanonical(links: seq<Link>)
    requires WellFormedChain([Ident("_")], links)
    ensures Canonical(LinkLexemes(links))
  {
    if links != [] {
      var l := links[0];
      assert WellFormedChain([Ident("_")], links[1..]) by {
        forall k | 0 <= k < |links| - 1 ensures links[1..][k] == links[k + 1] { }
      }
      LinkLexemesCanonical(links[1..]);
      var a: seq<Lexeme> := [Marker(l.check)] + Keeps(l.span);
      var b: seq<Lexeme> := LinkLexemes(links[1..]);
      forall k | 0 <= k < |a + b|
        ensures Scannable((a + b)[k])
      {
        if k >= |a| {
          assert (a + b)[k] == b[k - |a|];
        } else if k >= 1 {
          assert (a + b)[k] == Keep(l.span[k - 1]);
        }
      }
    }
  }

  lemma {:induction false} GatherKeeps(ts: seq<Token>, rest: seq<Lexeme>, done: seq<OptionalSegment>,
                                       current: seq<Token>, active: OptionalVariant)
    ensures Gather(Keeps(ts) + rest, done, current, active) == Gather(rest, done, current + ts, active)
  {
    if ts == [] {
      assert Keeps(ts) + rest == rest;
      assert current + ts == current;
    } else {
      assert Keeps(ts) + rest == [Keep(ts[0])] + (Keeps(ts[1..]) + rest);
      GatherOne(Keep(ts[0]), Keeps(ts[1..]) + rest, done, current, active);
      GatherKeeps(ts[1..], rest, done, current + [ts[0]], active);
      assert current + [ts[0]] + ts[1..] == current + ts;
    }
  }

  lemma {:induction false} GatherLinks(links: seq<Link>, done: seq<OptionalSegment>,
                                       current: seq<Token>, active: OptionalVariant)
    requires current != []
    requires forall k :: 0 <= k < |links| ==> links[k].span != []
    ensures Gather(LinkLexemes(links), done, current, active) ==
            done + [OptionalSegment(active, current)] + LinkSegments(links)
  {
    if links == [] {
      assert LinkSegments(links) == [];
    } else {
      var l, rest := links[0], LinkLexemes(links[1..]);
      var done' := done + [OptionalSegment(active, current)];
      assert Gather(LinkLexemes(links), done, current, active) == Gather(Keeps(l.span) + rest, done', [], l.check) by {
        assert LinkLexemes(links) == [Marker(l.check)] + (Keeps(l.span) + rest);
        GatherOne(Marker(l.check), Keeps(l.span) + rest, done, current, active);
      }
      assert Gather(Keeps(l.span) + rest, done', [], l.check) == Gather(rest, done', l.span, l.check) by {
        GatherKeeps(l.span, rest, done', [], l.check);
        assert [] + l.span == l.span;
      }
      assert Gather(rest, done', l.span, l.check) ==
             done' + [OptionalSegment(l.check, l.span)] + LinkSegments(links[1..]) by {
        assert forall k :: 0 <= k < |links| - 1 ==> links[1..][k] == links[k + 1];
        GatherLinks(links[1..], done', l.span, l.check);
      }
      LinkSegmentsCons(links);
    }
  }

  lemma {:induction false} LinkSegmentsCons(links: seq<Link>)
    requires links != []
    ensures LinkSegments(links) == [OptionalSegment(links[0].check, links[0].span)] + LinkSegments(links[1..])
  {
  }

  /** The lexemes of a well-formed chain: its receiver's tokens, then each
      link's marker and tokens; the closing adds none. */
  lemma {:induction false} ChainLex(head: seq<Token>, links: seq<Link>, ending: OptionalVariant)
    requires WellFormedChain(head, links)
    ensures Lex(Render(head, links) + Ending(ending)) == Keeps(head) + LinkLexemes(links)
  {
    var lexemes := Keeps(head) + LinkLexemes(links);
    UnlexAppend(Keeps(head), LinkLexemes(links));
    UnlexKeeps(head);
    UnlexLinks(links);
    assert Unlex(lexemes) == Render(head, links);
    assert WellFormedChain([Ident("_")], links);
    LinkLexemesCanonical(links);
    assert Canonical(lexemes) by {
      forall k | 0 <= k < |lexemes|
        ensures Scannable(lexemes[k])
      {
        if k >= |head| {
          assert lexemes[k] == LinkLexemes(links)[k - |head|];
        } else {
          assert lexemes[k] == Keep(head[k]);
        }
      }
    }
    LexUnlexEnding(lexemes, ending);
  }

  /** The segments the scan records for a well-formed chain, before the
      shift: the receiver under `Root`, then each span under the marker
      that opened it. */
  lemma {:induction false} ChainRaw(head: seq<Token>, links: seq<Link>, ending: OptionalVariant)
    requires WellFormedChain(head, links)
    ensures Raw(Render(head, links) + Ending(ending)) ==
            [OptionalSegment(Root, head)] + LinkSegments(links)
  {
    ChainLex(head, links, ending);
    GatherKeeps(head, LinkLexemes(links), [], [], Root);
    assert [] + head == head;
    GatherLinks(links, [], head, Root);
    assert [] + [OptionalSegment(Root, head)] == [OptionalSegment(Root, head)];
  }

  /** The segments a well-formed chain stands for: the receiver and then
      every link's span, each under the check of the marker after it, the
      last under `last`. */
  function ChainSegments(head: seq<Token>, links: seq<Link>, last: OptionalVariant): (r: seq<OptionalSegment>)
    ensures |r| == |links| + 1
  {
    seq(|links| + 1, k requires 0 <= k <= |links| =>
      OptionalSegment(if k < |links| then links[k].check else last,
                      if k == 0 then head else links[k - 1].span))
  }

  /** For a well-formed chain, closed by `ending`, the segmenter recovers
      exactly its spans; every span but the last carries the check of the
      marker that follows it, and the last span carries the closing check,
      or, when there is none, the variant its own last token decides. */
  lemma {:induction false} WellFormedChainSplit(head: seq<Token>, links: seq<Link>, ending: OptionalVariant)
    requires WellFormedChain(head, links)
    ensures var input := Render(head, links) + Ending(ending);
            Split(input) ==
              ChainSegments(head, links, if IsCheck(ending) then ending else FinalVariant(input[|input| - 1]))
  {
    var input := Render(head, links) + Ending(ending);
    var last := if IsCheck(ending) then ending else FinalVariant(input[|input| - 1]);
    var s, raw := Split(input), Raw(input);
    ChainRaw(head, links, ending);
    SplitFromRaw(input);
    if IsCheck(ending) {
      var e := Ending(ending);
      assert input[|input| - 1] == e[|e| - 1];
    }
    assert s[|s| - 1].variant == last;
    forall k | 0 <= k < |s|
      ensures s[k] == ChainSegments(head, links, last)[k]
    {
      ChainSegmentAt(s, raw, head, links, last, k);
    }
  }

  lemma {:induction false} ChainSegmentAt(s: seq<OptionalSegment>, raw: seq<OptionalSegment>, head: seq<Token>,
                                          links: seq<Link>, last: OptionalVariant, k: nat)
    requires |s| == |links| + 1 && k < |s|
    requires raw == [OptionalSegment(Root, head)] + LinkSegments(links)
    requires s[k].tokens == raw[k].tokens
    requires k < |links| ==> s[k].variant == raw[k + 1].variant
    requires k == |links| ==> s[k].variant == last
    ensures s[k] == ChainSegments(head, links, last)[k]
  {
    if k > 0 {
      assert raw[k] == LinkSegments(links)[k - 1];
    }
    if k < |links| {
      assert raw[k + 1] == LinkSegments(links)[k];
    }
  }
}
