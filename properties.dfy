/** What the primitive layer promises, proved about the specification
    functions of module Primitive (and so, through the `ensures` of the `Go…`
    methods, about the imperative combinators). */
module PrimitiveProperties {
  import opened Input
  import opened Modes
  import opened Primitive

  // ---------------------------------------------------------------------
  // Any, OneOf and NoneOf
  // ---------------------------------------------------------------------

  /** Any succeeds exactly when a token is left, consuming and emitting it. */
  lemma AnySucceedsIff<T(!new)>(input: seq<T>, pos: nat, m: Mode)
    requires pos <= |input|
    ensures Parse(Any(), input, pos, m).res.Ok? <==> pos < |input|
    ensures Parse(Any(), input, pos, m).pos == if pos < |input| then pos + 1 else pos
    ensures pos < |input| ==> Parse(Any(), input, pos, m).res.out == Bind(m, Token(input[pos]))
  {
  }

  /** On a present token exactly one of OneOf(s) and NoneOf(s) succeeds, and
      both consume that token; at end of input both fail without moving. */
  lemma OneOfNoneOfComplement<T>(tokens: Pat<T>, input: seq<T>, pos: nat, m: Mode)
    requires pos <= |input|
    ensures pos < |input| ==>
      Parse(OneOf(tokens), input, pos, m).res.Ok? != Parse(NoneOf(tokens), input, pos, m).res.Ok?
    ensures pos == |input| ==>
      Parse(OneOf(tokens), input, pos, m).res.Err? && Parse(NoneOf(tokens), input, pos, m).res.Err?
    ensures Parse(OneOf(tokens), input, pos, m).pos == Parse(NoneOf(tokens), input, pos, m).pos
  {
  }

  // ---------------------------------------------------------------------
  // Just
  // ---------------------------------------------------------------------

  /** The `j`-th pattern element does not meet a token equal to it
      (the input is exhausted there, or the token differs). */
  predicate MismatchAt<T(==)>(items: seq<T>, input: seq<T>, pos: nat, j: nat)
    requires j < |items|
  {
    pos + j >= |input| || input[pos + j] != items[j]
  }

  lemma {:induction false} MatchFromIff<T>(items: seq<T>, k: nat, input: seq<T>, q: nat)
    requires k <= |items| && q <= |input|
    ensures MatchFrom(items, k, input, q).ok <==>
      q + (|items| - k) <= |input| && input[q..q + (|items| - k)] == items[k..]
    decreases |items| - k
  {
    var n := |items| - k;
    if k < |items| {
      if q < |input| && input[q] == items[k] {
        MatchFromIff(items, k + 1, input, q + 1);
        if q + n <= |input| {
          assert input[q..q + n] == [input[q]] + input[q + 1..q + n];
          assert items[k..] == [items[k]] + items[k + 1..];
        }
      } else if q + n <= |input| {
        assert input[q..q + n][0] != items[k..][0];
      }
    }
  }

  /** Just(p) succeeds iff the next |p| tokens equal p's elements pairwise, in
      order; then the cursor is exactly |p| further on and Emit yields a
      copy of the pattern value. An empty pattern is the case |p| == 0. */
  lemma JustSucceedsIff<T>(pattern: Pat<T>, input: seq<T>, pos: nat, m: Mode)
    requires pos <= |input|
    ensures Parse(Just(pattern), input, pos, m).res.Ok? <==>
      pos + |Iter(pattern)| <= |input| && input[pos..pos + |Iter(pattern)|] == Iter(pattern)
    ensures Parse(Just(pattern), input, pos, m).res.Ok? ==>
      Parse(Just(pattern), input, pos, m).pos == pos + |Iter(pattern)| &&
      Parse(Just(pattern), input, pos, m).res.out == Bind(m, PatValue(pattern))
  {
    MatchFromIff(Iter(pattern), 0, input, pos);
  }

  /** The empty pattern always matches and consumes nothing. */
  lemma JustEmptyPattern<T>(input: seq<T>, pos: nat, m: Mode)
    requires pos <= |input|
    ensures Parse(Just(Many([])), input, pos, m) == Step(Ok(Bind(m, Pattern([]))), pos)
  {
  }

  lemma {:induction false} MatchFromStopsAtFirstMismatch<T>(items: seq<T>, k: nat, input: seq<T>, pos: nat)
    returns (j: nat)
    requires k <= |items| && pos + k <= |input|
    requires forall i :: 0 <= i < k ==> !MismatchAt(items, input, pos, i)
    requires !MatchFrom(items, k, input, pos + k).ok
    ensures k <= j < |items| && MismatchAt(items, input, pos, j)
    ensures forall i :: 0 <= i < j ==> !MismatchAt(items, input, pos, i)
    ensures MatchFrom(items, k, input, pos + k).pos == if pos + j < |input| then pos + j + 1 else |input|
    decreases |items| - k
  {
    if pos + k < |input| && input[pos + k] == items[k] {
      assert !MismatchAt(items, input, pos, k);
      j := MatchFromStopsAtFirstMismatch(items, k + 1, input, pos);
    } else {
      j := k;
      assert MismatchAt(items, input, pos, k);
    }
  }

  /** Just never rewinds: on failure it stopped at the first element that did
      not match, the cursor standing just past the token it read there, or at
      the end of input when the input ran out first. */
  lemma JustFailsAtFirstMismatch<T>(pattern: Pat<T>, input: seq<T>, pos: nat, m: Mode)
    requires pos <= |input|
    requires Parse(Just(pattern), input, pos, m).res.Err?
    ensures exists j :: (0 <= j < |Iter(pattern)| && MismatchAt(Iter(pattern), input, pos, j) &&
      (forall i :: 0 <= i < j ==> !MismatchAt(Iter(pattern), input, pos, i)) &&
      Parse(Just(pattern), input, pos, m).pos == (if pos + j < |input| then pos + j + 1 else |input|))
  {
    var j := MatchFromStopsAtFirstMismatch(Iter(pattern), 0, input, pos);
    assert 0 <= j < |Iter(pattern)| && MismatchAt(Iter(pattern), input, pos, j);
  }

  // ---------------------------------------------------------------------
  // Choice
  // ---------------------------------------------------------------------

  lemma {:induction false} ChoiceFromFirstSuccess<T>(p: Parser<T>, i: nat, input: seq<T>, pos: nat, m: Mode, k: nat)
    requires p.Choice? && i <= k < |p.alts| && pos <= |input|
    requires forall j :: i <= j < k ==> Parse(p.alts[j], input, pos, m).res.Err?
    requires Parse(p.alts[k], input, pos, m).res.Ok?
    ensures ParseChoiceFrom(p, i, input, pos, m) == Parse(p.alts[k], input, pos, m)
    decreases k - i
  {
    if i < k {
      ChoiceFromFirstSuccess(p, i + 1, input, pos, m, k);
    }
  }

  /** Ordered first match: when arm k is the first arm that succeeds from the
      entry position, Choice yields exactly its result, output and cursor. */
  lemma ChoiceFirstSuccess<T>(alts: seq<Parser<T>>, input: seq<T>, pos: nat, m: Mode, k: nat)
    requires k < |alts| && pos <= |input|
    requires forall j :: 0 <= j < k ==> Parse(alts[j], input, pos, m).res.Err?
    requires Parse(alts[k], input, pos, m).res.Ok?
    ensures Parse(Choice(alts), input, pos, m) == Parse(alts[k], input, pos, m)
  {
    ChoiceFromFirstSuccess(Choice(alts), 0, input, pos, m, k);
  }

  lemma {:induction false} ChoiceFromWinner<T>(p: Parser<T>, i: nat, input: seq<T>, pos: nat, m: Mode)
    returns (k: nat)
    requires p.Choice? && i <= |p.alts| && pos <= |input|
    requires ParseChoiceFrom(p, i, input, pos, m).res.Ok?
    ensures i <= k < |p.alts| && Parse(p.alts[k], input, pos, m).res.Ok?
    ensures forall j :: i <= j < k ==> Parse(p.alts[j], input, pos, m).res.Err?
    ensures ParseChoiceFrom(p, i, input, pos, m) == Parse(p.alts[k], input, pos, m)
    decreases |p.alts| - i
  {
    if Parse(p.alts[i], input, pos, m).res.Ok? {
      k := i;
    } else {
      k := ChoiceFromWinner(p, i + 1, input, pos, m);
    }
  }

  /** A successful Choice owes its result to the first arm that succeeds
      from the entry position; every earlier arm failed from there. */
  lemma ChoiceSuccessHasWinner<T>(alts: seq<Parser<T>>, input: seq<T>, pos: nat, m: Mode)
    requires pos <= |input|
    requires Parse(Choice(alts), input, pos, m).res.Ok?
    ensures exists k :: (0 <= k < |alts| && Parse(alts[k], input, pos, m).res.Ok? &&
      (forall j :: 0 <= j < k ==> Parse(alts[j], input, pos, m).res.Err?) &&
      Parse(Choice(alts), input, pos, m) == Parse(alts[k], input, pos, m))
  {
    var k := ChoiceFromWinner(Choice(alts), 0, input, pos, m);
    assert Parse(alts[k], input, pos, m).res.Ok?;
  }

  lemma {:induction false} ChoiceFromAllFail<T>(p: Parser<T>, i: nat, input: seq<T>, pos: nat, m: Mode)
    requires p.Choice? && i <= |p.alts| && pos <= |input|
    ensures ParseChoiceFrom(p, i, input, pos, m).res.Err? <==>
      forall j :: i <= j < |p.alts| ==> Parse(p.alts[j], input, pos, m).res.Err?
    decreases |p.alts| - i
  {
    if i < |p.alts| {
      ChoiceFromAllFail(p, i + 1, input, pos, m);
    }
  }

  /** Choice fails iff every arm fails from the entry position, and then the
      cursor is exactly back at the entry position. */
  lemma ChoiceFailsIff<T>(alts: seq<Parser<T>>, input: seq<T>, pos: nat, m: Mode)
    requires pos <= |input|
    ensures Parse(Choice(alts), input, pos, m).res.Err? <==>
      forall j :: 0 <= j < |alts| ==> Parse(alts[j], input, pos, m).res.Err?
    ensures Parse(Choice(alts), input, pos, m).res.Err? ==> Parse(Choice(alts), input, pos, m).pos == pos
  {
    ChoiceFromAllFail(Choice(alts), 0, input, pos, m);
  }

  /** Once an arm succeeds no later arm is run: appending arms after a
      successful prefix does not change the outcome. */
  lemma ChoiceIgnoresLaterArms<T>(alts: seq<Parser<T>>, more: seq<Parser<T>>, input: seq<T>, pos: nat, m: Mode)
    requires pos <= |input|
    requires Parse(Choice(alts), input, pos, m).res.Ok?
    ensures Parse(Choice(alts + more), input, pos, m) == Parse(Choice(alts), input, pos, m)
  {
    var k := ChoiceFromWinner(Choice(alts), 0, input, pos, m);
    var both := alts + more;
    assert forall j :: 0 <= j <= k ==> both[j] == alts[j];
    ChoiceFirstSuccess(both, input, pos, m, k);
  }

  // ---------------------------------------------------------------------
  // Mode equivalence
  // ---------------------------------------------------------------------

  /** Check and Emit runs take the same path: the same success or failure
      and the same final cursor; Check only drops the output value. */
  lemma {:induction false} ModeEquivalence<T>(p: Parser<T>, input: seq<T>, pos: nat)
    requires pos <= |input|
    ensures Parse(p, input, pos, Check).res.Ok? == Parse(p, input, pos, Emit).res.Ok?
    ensures Parse(p, input, pos, Check).pos == Parse(p, input, pos, Emit).pos
    ensures Parse(p, input, pos, Check).res == Erase(Parse(p, input, pos, Emit).res)
    decreases p, 1
  {
    if p.Choice? {
      ModeEquivalenceFrom(p, 0, input, pos);
    }
  }

  lemma {:induction false} ModeEquivalenceFrom<T>(p: Parser<T>, i: nat, input: seq<T>, pos: nat)
    requires p.Choice? && i <= |p.alts| && pos <= |input|
    ensures ParseChoiceFrom(p, i, input, pos, Check).pos == ParseChoiceFrom(p, i, input, pos, Emit).pos
    ensures ParseChoiceFrom(p, i, input, pos, Check).res == Erase(ParseChoiceFrom(p, i, input, pos, Emit).res)
    decreases p, 0, |p.alts| - i
  {
    if i < |p.alts| {
      ModeEquivalence(p.alts[i], input, pos);
      ModeEquivalenceFrom(p, i + 1, input, pos);
    }
  }

  // ---------------------------------------------------------------------
  // Output types
  // ---------------------------------------------------------------------

  /** A parser Rust accepts emits a value of its declared output type; in
      particular a Choice's result has the type shared by all its arms. */
  lemma {:induction false} OutputHasDeclaredKind<T>(p: Parser<T>, input: seq<T>, pos: nat)
    requires WellTyped(p) && pos <= |input|
    requires Parse(p, input, pos, Emit).res.Ok?
    ensures KindOf(Parse(p, input, pos, Emit).res.out.value) == OutputKind(p)
    decreases p, 1
  {
    if p.Choice? {
      OutputHasDeclaredKindFrom(p, 0, input, pos);
    }
  }

  lemma {:induction false} OutputHasDeclaredKindFrom<T>(p: Parser<T>, i: nat, input: seq<T>, pos: nat)
    requires p.Choice? && WellTyped(p) && i <= |p.alts| && pos <= |input|
    requires ParseChoiceFrom(p, i, input, pos, Emit).res.Ok?
    ensures KindOf(ParseChoiceFrom(p, i, input, pos, Emit).res.out.value) == OutputKind(p)
    decreases p, 0, |p.alts| - i
  {
    if Parse(p.alts[i], input, pos, Emit).res.Ok? {
      OutputHasDeclaredKind(p.alts[i], input, pos);
    } else {
      OutputHasDeclaredKindFrom(p, i + 1, input, pos);
    }
  }

  /** A Choice is accepted exactly when it has an arm, every arm is accepted,
      and any two arms have the same output type. */
  lemma ChoiceWellTypedIff<T>(alts: seq<Parser<T>>)
    ensures WellTyped(Choice(alts)) <==>
      |alts| > 0 && (forall i :: 0 <= i < |alts| ==> WellTyped(alts[i])) &&
      forall i, j :: 0 <= i < |alts| && 0 <= j < |alts| ==> OutputKind(alts[i]) == OutputKind(alts[j])
  {
  }

  /** With string patterns the arms output the string while `any()` outputs
      a character, so this Choice does not exist. */
  lemma StringChoiceIllTyped()
    ensures !WellTyped(Choice([Just(Many("a")), Just(Many("b")), Any()]))
  {
    var alts: seq<Parser<char>> := [Just(Many("a")), Just(Many("b")), Any()];
    assert OutputKind(alts[0]) == PatternKind && OutputKind(alts[2]) == TokenKind;
  }

  /** Over `()` tokens Rust accepts `choice((end(), any()))`, both arms having
      output `()`; kinds tell End's unit from a token, so `WellTyped` rejects
      it. Parse (and so `Go`) still runs it: End fails on the token, the
      cursor is rewound and Any emits the token. */
  lemma UnitTokenChoiceScenario()
    ensures !WellTyped(Choice([End, Any<()>()]))
    ensures Parse(Choice([End, Any<()>()]), [()], 0, Emit) == Step(Ok(Emitted(Token(()))), 1)
  {
    var alts: seq<Parser<()>> := [End, Any()];
    assert OutputKind(alts[0]) == UnitKind && OutputKind(alts[1]) == TokenKind;
  }

  // ---------------------------------------------------------------------
  // Concrete scenarios on character input
  // ---------------------------------------------------------------------

  lemma JustPrefixScenario()
    ensures Parse(Just(Many("ab")), "abc", 0, Emit) == Step(Ok(Emitted(Pattern("ab"))), 2)
  {
    JustSucceedsIff(Many("ab"), "abc", 0, Emit);
  }

  /** The mismatch is at the second character, which has been consumed. */
  lemma JustMismatchScenario()
    ensures Parse(Just(Many("ax")), "abc", 0, Emit) == Step(Err(NoMatch), 2)
  {
  }

  lemma OneOfScenario()
    ensures Parse(OneOf(Many("abc")), "abc", 0, Emit) == Step(Ok(Emitted(Token('a'))), 1)
  {
    assert "abc"[0] == 'a';
  }

  lemma EndAtEndScenario()
    ensures Parse(End, "", 0, Emit) == Step(Ok(Emitted(Unit)), 0)
  {
  }

  /** End reads the token before it fails, so the cursor is past it. */
  lemma EndConsumesOnFailureScenario()
    ensures Parse(End, "x", 0, Emit) == Step(Err(NoMatch), 1)
  {
  }

  /** The first two arms each read `z`, fail and are rewound; Any then
      consumes `z`. */
  lemma ChoiceScenario()
    ensures WellTyped(Choice([Just(Once('a')), Just(Once('b')), Any()]))
    ensures Parse(Choice([Just(Once('a')), Just(Once('b')), Any()]), "z", 0, Emit) == Step(Ok(Emitted(Token('z'))), 1)
  {
    var alts: seq<Parser<char>> := [Just(Once('a')), Just(Once('b')), Any()];
    assert Parse(alts[0], "z", 0, Emit).res.Err?;
    assert Parse(alts[1], "z", 0, Emit).res.Err?;
    ChoiceFirstSuccess(alts, "z", 0, Emit, 2);
  }
}
