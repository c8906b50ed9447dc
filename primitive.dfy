/** The single-step matchers End, Empty, Just, OneOf, NoneOf, Filter/Any and
    the ordered, backtracking alternation Choice.

    Each combinator has two faces here: a specification function `Parse…`
    (what a run from position `pos` yields: the result and the final position)
    and an imperative `Go…` method that works on a `Cursor` exactly as the
    combinator's `go` does: it calls `Next`, `Save` and `Rewind` and is proved
    to end in the state the specification function describes. */
module Primitive {
  import opened Input
  import opened Modes

  /** The output values of the primitives: `()` from End and Empty, the
      consumed token from OneOf, NoneOf and Filter, and the pattern itself
      from Just. A Choice passes on whatever its winning arm produced. */
  datatype Value<T> = Unit | Token(tok: T) | Pattern(items: seq<T>)

  /** The output type of a parser, as Rust's type checker sees it. */
  datatype Kind = UnitKind | TokenKind | PatternKind

  function KindOf<T>(v: Value<T>): Kind
  {
    match v
    case Unit => UnitKind
    case Token(_) => TokenKind
    case Pattern(_) => PatternKind
  }

  /** A `Seq` pattern: a single value, which iterates once, or a fixed
      collection (an array, or a string iterated as its characters). */
  datatype Pat<T> = Once(value: T) | Many(items: seq<T>)

  /** `Seq::iter`: a fresh iteration of the pattern's elements, in order. */
  function Iter<T>(pat: Pat<T>): (s: seq<T>)
    ensures pat.Once? ==> s == [pat.value]
    ensures pat.Many? ==> s == pat.items
  {
    match pat
    case Once(v) => [v]
    case Many(items) => items
  }

  /** The clone of the pattern value that Just emits: a single value comes
      back as that token, a collection as the whole collection. */
  function PatValue<T>(pat: Pat<T>): (v: Value<T>)
    ensures v.Token? <==> pat.Once?
    ensures v.Token? ==> [v.tok] == Iter(pat)
    ensures v.Pattern? <==> pat.Many?
    ensures v.Pattern? ==> v.items == Iter(pat)
  {
    match pat
    case Once(v) => Token(v)
    case Many(items) => Pattern(items)
  }

  /** The combinator values. Filter's closure is a total, pure predicate;
      Choice holds its arms in order. */
  datatype Parser<!T> =
    | End
    | Empty
    | Just(pattern: Pat<T>)
    | OneOf(tokens: Pat<T>)
    | NoneOf(tokens: Pat<T>)
    | Filter(pred: T -> bool)
    | Choice(alts: seq<Parser<T>>)

  /** `any()`: a filter whose predicate accepts every token. */
  function Any<T(!new)>(): (p: Parser<T>)
    ensures p.Filter? && forall t :: p.pred(t)
  {
    Filter(_ => true)
  }

  /** The output type a parser is declared with; a Choice has its arms' type. */
  function OutputKind<T>(p: Parser<T>): (k: Kind)
    ensures p.End? || p.Empty? ==> k == UnitKind
    ensures p.OneOf? || p.NoneOf? || p.Filter? ==> k == TokenKind
    ensures p.Just? ==> k == KindOf(PatValue(p.pattern))
    ensures p.Choice? && |p.alts| > 0 ==> k == OutputKind(p.alts[0])
  {
    match p
    case End => UnitKind
    case Empty => UnitKind
    case Just(pat) => KindOf(PatValue(pat))
    case OneOf(_) => TokenKind
    case NoneOf(_) => TokenKind
    case Filter(_) => TokenKind
    case Choice(alts) => if |alts| == 0 then UnitKind else OutputKind(alts[0])
  }

  /** An approximation of the Choices Rust's typing rule lets one build: a
      Choice has at least one arm, and all its arms share one output kind.
      Kinds are not Rust's types: this admits some Choices Rust rejects
      (collections of different types) and rejects some Rust accepts (End's
      unit next to a `()` token). Only the typing lemmas depend on it. */
  predicate WellTyped<T>(p: Parser<T>): (b: bool)
    ensures b && p.Choice? ==> |p.alts| > 0
    ensures b && p.Choice? ==> forall i, j :: 0 <= i < |p.alts| && 0 <= j < |p.alts| ==>
      OutputKind(p.alts[i]) == OutputKind(p.alts[j])
    ensures b && p.Choice? ==> forall i :: 0 <= i < |p.alts| ==> OutputKind(p.alts[i]) == OutputKind(p)
  {
    match p
    case Choice(alts) =>
      |alts| > 0 &&
      forall i :: 0 <= i < |alts| ==> WellTyped(alts[i]) && OutputKind(alts[i]) == OutputKind(alts[0])
    case _ => true
  }

  /** The outcome of running a parser: its result and the final cursor position. */
  datatype Step<T> = Step(res: PResult<Value<T>>, pos: nat)

  /** How far a pattern match got: whether it matched and where the cursor stands. */
  datatype Match = Match(ok: bool, pos: nat)

  // ---------------------------------------------------------------------
  // Specification functions
  // ---------------------------------------------------------------------

  /** End reads one token first, so on failure that token has been consumed. */
  function ParseEnd<T>(input: seq<T>, pos: nat, m: Mode): (s: Step<T>)
    requires pos <= |input|
    ensures s.res.Ok? <==> pos == |input|
    ensures s.res.Ok? ==> s.pos == pos && s.res.out == Bind(m, Unit)
    ensures s.res.Err? ==> s.pos == pos + 1
  {
    var n := NextAt(input, pos);
    match n.tok
    case None => Step(Ok(Bind(m, Unit)), n.pos)
    case Some(_) => Step(Err(NoMatch), n.pos)
  }

  function ParseEmpty<T>(input: seq<T>, pos: nat, m: Mode): (s: Step<T>)
    requires pos <= |input|
    ensures s.res.Ok? && s.res.out == Bind(m, Unit)
    ensures s.pos == pos
  {
    Step(Ok(Bind(m, Unit)), pos)
  }

  /** The loop of Just from the `k`-th pattern element on, with the cursor at
      `pos`: each element is compared with the token `Next` yields; the first
      mismatch or end of input stops it. */
  function MatchFrom<T(==)>(pattern: seq<T>, k: nat, input: seq<T>, pos: nat): (r: Match)
    requires k <= |pattern| && pos <= |input|
    ensures pos <= r.pos <= |input|
    ensures r.ok ==> r.pos == pos + (|pattern| - k)
    decreases |pattern| - k
  {
    if k == |pattern| then Match(true, pos)
    else
      var n := NextAt(input, pos);
      if n.tok.Some? && n.tok.value == pattern[k] then MatchFrom(pattern, k + 1, input, n.pos)
      else Match(false, n.pos)
  }

  /** Just emits a copy of its own pattern, not the tokens it consumed. */
  function ParseJust<T(==)>(pattern: Pat<T>, input: seq<T>, pos: nat, m: Mode): (s: Step<T>)
    requires pos <= |input|
    ensures pos <= s.pos <= |input|
    ensures s.res.Ok? ==> s.pos == pos + |Iter(pattern)| && s.res.out == Bind(m, PatValue(pattern))
  {
    var r := MatchFrom(Iter(pattern), 0, input, pos);
    Step(if r.ok then Ok(Bind(m, PatValue(pattern))) else Err(NoMatch), r.pos)
  }

  function ParseOneOf<T(==)>(tokens: Pat<T>, input: seq<T>, pos: nat, m: Mode): (s: Step<T>)
    requires pos <= |input|
    ensures s.res.Ok? <==> pos < |input| && exists j :: 0 <= j < |Iter(tokens)| && Iter(tokens)[j] == input[pos]
    ensures s.pos == if pos < |input| then pos + 1 else pos
    ensures s.res.Ok? ==> pos < |input| && s.res.out == Bind(m, Token(input[pos]))
  {
    var n := NextAt(input, pos);
    match n.tok
    case Some(tok) =>
      if tok in Iter(tokens) then Step(Ok(Bind(m, Token(tok))), n.pos) else Step(Err(NoMatch), n.pos)
    case None => Step(Err(NoMatch), n.pos)
  }

  function ParseNoneOf<T(==)>(tokens: Pat<T>, input: seq<T>, pos: nat, m: Mode): (s: Step<T>)
    requires pos <= |input|
    ensures s.res.Ok? <==> pos < |input| && forall j :: 0 <= j < |Iter(tokens)| ==> Iter(tokens)[j] != input[pos]
    ensures s.pos == if pos < |input| then pos + 1 else pos
    ensures s.res.Ok? ==> pos < |input| && s.res.out == Bind(m, Token(input[pos]))
  {
    var n := NextAt(input, pos);
    match n.tok
    case Some(tok) =>
      if tok !in Iter(tokens) then Step(Ok(Bind(m, Token(tok))), n.pos) else Step(Err(NoMatch), n.pos)
    case None => Step(Err(NoMatch), n.pos)
  }

  function ParseFilter<T>(pred: T -> bool, input: seq<T>, pos: nat, m: Mode): (s: Step<T>)
    requires pos <= |input|
    ensures s.res.Ok? <==> pos < |input| && pred(input[pos])
    ensures s.pos == if pos < |input| then pos + 1 else pos
    ensures s.res.Ok? ==> pos < |input| && s.res.out == Bind(m, Token(input[pos]))
  {
    var n := NextAt(input, pos);
    match n.tok
    case Some(tok) =>
      if pred(tok) then Step(Ok(Bind(m, Token(tok))), n.pos) else Step(Err(NoMatch), n.pos)
    case None => Step(Err(NoMatch), n.pos)
  }

  /** Runs `p` from `pos`. Every parser only moves the cursor forward and stays
      inside the input, and its output is materialised exactly under Emit. */
  function Parse<T(==)>(p: Parser<T>, input: seq<T>, pos: nat, m: Mode): (s: Step<T>)
    requires pos <= |input|
    ensures pos <= s.pos <= |input|
    ensures s.res.Ok? ==> (s.res.out.Emitted? <==> m == Emit)
    decreases p, 1
  {
    match p
    case End => ParseEnd(input, pos, m)
    case Empty => ParseEmpty(input, pos, m)
    case Just(pattern) => ParseJust(pattern, input, pos, m)
    case OneOf(tokens) => ParseOneOf(tokens, input, pos, m)
    case NoneOf(tokens) => ParseNoneOf(tokens, input, pos, m)
    case Filter(pred) => ParseFilter(pred, input, pos, m)
    case Choice(_) => ParseChoiceFrom(p, 0, input, pos, m)
  }

  /** Choice from its `i`-th arm on: every arm starts at the saved position
      `pos`; the first one that succeeds decides the outcome; after a failing
      arm the cursor is back at `pos`, and when none is left Choice fails there. */
  function ParseChoiceFrom<T(==)>(p: Parser<T>, i: nat, input: seq<T>, pos: nat, m: Mode): (s: Step<T>)
    requires p.Choice? && i <= |p.alts| && pos <= |input|
    ensures pos <= s.pos <= |input|
    ensures s.res.Ok? ==> (s.res.out.Emitted? <==> m == Emit)
    ensures s.res.Err? ==> s.pos == pos
    decreases p, 0, |p.alts| - i
  {
    if i == |p.alts| then Step(Err(NoMatch), pos)
    else
      var s := Parse(p.alts[i], input, pos, m);
      if s.res.Ok? then s else ParseChoiceFrom(p, i + 1, input, pos, m)
  }

  // ---------------------------------------------------------------------
  // The `go` methods, working on a cursor
  // ---------------------------------------------------------------------

  method GoEnd<T>(inp: Cursor<T>, m: Mode) returns (r: PResult<Value<T>>)
    requires inp.Valid()
    modifies inp`pos
    ensures inp.Valid()
    ensures Step(r, inp.pos) == ParseEnd(inp.input, old(inp.pos), m)
  {
    var at, tok := inp.Next();
    match tok
    case None => r := Ok(Bind(m, Unit));
    case Some(_) => r := Err(NoMatch);
  }

  method GoEmpty<T>(inp: Cursor<T>, m: Mode) returns (r: PResult<Value<T>>)
    requires inp.Valid()
    ensures Step(r, inp.pos) == ParseEmpty(inp.input, inp.pos, m)
  {
    r := Ok(Bind(m, Unit));
  }

  /** Walks the pattern and the cursor in step; never rewinds on a mismatch. */
  method GoJust<T(==)>(pattern: Pat<T>, inp: Cursor<T>, m: Mode) returns (r: PResult<Value<T>>)
    requires inp.Valid()
    modifies inp`pos
    ensures inp.Valid()
    ensures Step(r, inp.pos) == ParseJust(pattern, inp.input, old(inp.pos), m)
  {
    var items := Iter(pattern);
    var k := 0;  // how many elements the iterator has handed out and matched
    while true
      invariant k <= |items| && inp.Valid()
      invariant MatchFrom(items, k, inp.input, inp.pos) == MatchFrom(items, 0, inp.input, old(inp.pos))
      decreases |items| - k
    {
      if k == |items| {
        r := Ok(Bind(m, PatValue(pattern)));
        return;
      }
      var at, tok := inp.Next();
      if tok.Some? && tok.value == items[k] {
        k := k + 1;
      } else {
        r := Err(NoMatch);
        return;
      }
    }
  }

  method GoOneOf<T(==)>(tokens: Pat<T>, inp: Cursor<T>, m: Mode) returns (r: PResult<Value<T>>)
    requires inp.Valid()
    modifies inp`pos
    ensures inp.Valid()
    ensures Step(r, inp.pos) == ParseOneOf(tokens, inp.input, old(inp.pos), m)
  {
    var at, tok := inp.Next();
    if tok.Some? && tok.value in Iter(tokens) {
      r := Ok(Bind(m, Token(tok.value)));
    } else {
      r := Err(NoMatch);
    }
  }

  method GoNoneOf<T(==)>(tokens: Pat<T>, inp: Cursor<T>, m: Mode) returns (r: PResult<Value<T>>)
    requires inp.Valid()
    modifies inp`pos
    ensures inp.Valid()
    ensures Step(r, inp.pos) == ParseNoneOf(tokens, inp.input, old(inp.pos), m)
  {
    var at, tok := inp.Next();
    if tok.Some? && tok.value !in Iter(tokens) {
      r := Ok(Bind(m, Token(tok.value)));
    } else {
      r := Err(NoMatch);
    }
  }

  method GoFilter<T>(pred: T -> bool, inp: Cursor<T>, m: Mode) returns (r: PResult<Value<T>>)
    requires inp.Valid()
    modifies inp`pos
    ensures inp.Valid()
    ensures Step(r, inp.pos) == ParseFilter(pred, inp.input, old(inp.pos), m)
  {
    var at, tok := inp.Next();
    if tok.Some? && pred(tok.value) {
      r := Ok(Bind(m, Token(tok.value)));
    } else {
      r := Err(NoMatch);
    }
  }

  /** Dispatches to the combinator's own `go`. */
  method Go<T(==)>(p: Parser<T>, inp: Cursor<T>, m: Mode) returns (r: PResult<Value<T>>)
    requires inp.Valid()
    modifies inp`pos
    ensures inp.Valid()
    ensures Step(r, inp.pos) == Parse(p, inp.input, old(inp.pos), m)
    decreases p, 1
  {
    match p
    case End => r := GoEnd(inp, m);
    case Empty => r := GoEmpty(inp, m);
    case Just(pattern) => r := GoJust(pattern, inp, m);
    case OneOf(tokens) => r := GoOneOf(tokens, inp, m);
    case NoneOf(tokens) => r := GoNoneOf(tokens, inp, m);
    case Filter(pred) => r := GoFilter(pred, inp, m);
    case Choice(_) => r := GoChoice(p, inp, m);
  }

  /** Saves the cursor once, tries the arms in order, rewinds after each
      failing arm and returns the first success unchanged. */
  method GoChoice<T(==)>(p: Parser<T>, inp: Cursor<T>, m: Mode) returns (r: PResult<Value<T>>)
    requires inp.Valid() && p.Choice?
    modifies inp`pos
    ensures inp.Valid()
    ensures Step(r, inp.pos) == Parse(p, inp.input, old(inp.pos), m)
    decreases p, 0
  {
    var before := inp.Save();
    var i := 0;
    while i < |p.alts|
      invariant i <= |p.alts| && inp.Valid()
      invariant inp.pos == before.offset == old(inp.pos)
      invariant ParseChoiceFrom(p, i, inp.input, before.offset, m) == ParseChoiceFrom(p, 0, inp.input, before.offset, m)
      decreases |p.alts| - i
    {
      var out := Go(p.alts[i], inp, m);
      if out.Ok? {
        r := out;
        return;
      }
      inp.Rewind(before);
      i := i + 1;
    }
    r := Err(NoMatch);
  }
}
