/** The data model shared by the segmenter and the expression builder:
    the token trees a procedural macro receives and emits, the marker
    variants of an optional chain, and the segments the chain is cut into. */
module Tokens {

  /** Delimiters of a token group. */
  datatype Delimiter = Parenthesis | Brace | Bracket | NoDelimiter

  /** A token tree. Spans and the joint/alone spacing of punctuation are not
      part of the model: the macro never inspects them on its input. A group
      (for instance the argument list of `get(0)`) is one opaque token. */
  datatype Token =
    | Ident(name: string)
    | Punct(ch: char)
    | Literal(text: string)
    | Group(delimiter: Delimiter, stream: seq<Token>)

  /** How the value produced by a segment is checked before the next
      segment uses it. `Root` is the state before any marker was seen;
      `Required` marks a terminal segment without a trailing marker. */
  datatype OptionalVariant = Root | Option | Ok | Err | Required

  /** One accessor span of the chain with the check that governs it. */
  datatype OptionalSegment = OptionalSegment(variant: OptionalVariant, tokens: seq<Token>)

  /** The three variants introduced by a marker `?.`, `?Ok.` or `?Err.`. */
  predicate IsCheck(v: OptionalVariant) {
    v == Option || v == Ok || v == Err
  }

  /** The synthetic name every generated `if let` binds. */
  const Binder: Token := Ident("____v")

  /** The token sequences of the segments, in order. */
  function Spans(segments: seq<OptionalSegment>): (r: seq<seq<Token>>)
    ensures |r| == |segments|
    ensures forall k :: 0 <= k < |segments| ==> r[k] == segments[k].tokens
  {
    seq(|segments|, k requires 0 <= k < |segments| => segments[k].tokens)
  }

  /** All token sequences laid end to end. */
  function Concat(spans: seq<seq<Token>>): seq<Token> {
    if spans == [] then [] else spans[0] + Concat(spans[1..])
  }

  lemma {:induction false} ConcatAppend(a: seq<seq<Token>>, b: seq<seq<Token>>)
    ensures Concat(a + b) == Concat(a) + Concat(b)
  {
    if a == [] {
      assert a + b == b;
    } else {
      assert (a + b)[1..] == a[1..] + b;
      ConcatAppend(a[1..], b);
    }
  }
}
