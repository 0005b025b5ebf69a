/** The quantity stepper of the storefront script: the `-` and `+` buttons put around every
    `input.qty` inside a `.quantity` container, and the delegated click handler that moves the
    input's value by one inside the bounds given by its `min` and `max` attributes.

    The input is seen through `parseInt`: its value and its two attributes are `Option<int>`,
    `None` standing for NaN. What the handler writes back is an integer, which `parseInt`
    reads back unchanged, so a write of `v` leaves `Some(v)` in the model. */
module QuantityStepper {
  import opened Wrappers

  /** Fallbacks of the `|| 1`, `|| 1` and `|| 999` reads of value, `min` and `max`. */
  const DefaultValue: int := 1
  const DefaultMin: int := 1
  const DefaultMax: int := 999

  /** `parseInt(s) || d`: NaN and 0 are both falsy in JavaScript, so both give way to `d`. */
  function OrDefault(parsed: Option<int>, d: int): int
  {
    match parsed
    case Some(n) => if n != 0 then n else d
    case None => d
  }

  function Min(a: int, b: int): int { if a <= b then a else b }
  function Max(a: int, b: int): int { if a >= b then a else b }

  /** A `.qty-btn`, judged by its classes; `qty-minus` is tested before `qty-plus`,
      and a button with neither class does nothing. */
  datatype Button = Minus | Plus | Neither

  /** The sibling `input.qty` of a clicked button: its value and its `min` and `max`
      attributes, each as `parseInt` reads it. */
  datatype QtyInput = QtyInput(value: Option<int>, min: Option<int>, max: Option<int>)

  /** The value, lower and upper bound the handler works with. */
  function Current(q: QtyInput): int { OrDefault(q.value, DefaultValue) }
  function Lo(q: QtyInput): int { OrDefault(q.min, DefaultMin) }
  function Hi(q: QtyInput): int { OrDefault(q.max, DefaultMax) }

  predicate InRange(q: QtyInput) { Lo(q) <= Current(q) <= Hi(q) }

  /** How far the value the handler reads lies outside `[Lo, Hi]`; 0 inside. */
  function Distance(q: QtyInput): nat
  {
    Max(0, Max(Lo(q) - Current(q), Current(q) - Hi(q)))
  }

  /** Fallbacks: a value that does not parse, or parses to 0, reads as 1; a missing or 0
      `min` is 1; a missing or 0 `max` is 999. A bound the handler uses is never 0. */
  lemma Fallbacks(q: QtyInput)
    ensures q.value.None? || q.value == Some(0) ==> Current(q) == 1
    ensures q.min.None? || q.min == Some(0) ==> Lo(q) == 1
    ensures q.max.None? || q.max == Some(0) ==> Hi(q) == 999
    ensures q.value.Some? && q.value.value != 0 ==> Current(q) == q.value.value
    ensures q.min.Some? && q.min.value != 0 ==> Lo(q) == q.min.value
    ensures q.max.Some? && q.max.value != 0 ==> Hi(q) == q.max.value
    ensures Current(q) != 0 && Lo(q) != 0 && Hi(q) != 0
  {
  }

  /** One run of the click handler: the input afterwards and whether `change` was triggered. */
  datatype Run = Run(input: QtyInput, changed: bool)

  function HandleClick(b: Button, q: QtyInput): (r: Run)
    ensures r.input.min == q.min && r.input.max == q.max
    ensures !r.changed ==> r.input == q
    ensures b == Minus ==> (r.changed <==> Current(q) > Lo(q))
    ensures b == Plus ==> (r.changed <==> Current(q) < Hi(q))
    ensures b == Neither ==> !r.changed
    // a decrement never writes below the effective min, an increment never above the max
    ensures r.changed && b == Minus ==> r.input.value.Some? && Lo(q) <= r.input.value.value == Current(q) - 1
    ensures r.changed && b == Plus ==> r.input.value.Some? && Current(q) + 1 == r.input.value.value <= Hi(q)
  {
    match b
    case Minus =>
      if Current(q) > Lo(q) then Run(q.(value := Some(Current(q) - 1)), true) else Run(q, false)
    case Plus =>
      if Current(q) < Hi(q) then Run(q.(value := Some(Current(q) + 1)), true) else Run(q, false)
    case Neither => Run(q, false)
  }

  /** A click with `handlers` copies of the delegated handler bound: the copies run one after
      another, each re-reading the value the previous one wrote. */
  datatype Clicked = Clicked(input: QtyInput, changes: nat)

  function Click(b: Button, q: QtyInput, handlers: nat): (r: Clicked)
    ensures r.changes <= handlers
    ensures r.input.min == q.min && r.input.max == q.max
    ensures r.changes == 0 ==> r.input == q
    decreases handlers
  {
    if handlers == 0 then Clicked(q, 0)
    else
      var first := HandleClick(b, q);
      var rest := Click(b, first.input, handlers - 1);
      Clicked(rest.input, rest.changes + (if first.changed then 1 else 0))
  }

  /** One run of the handler keeps a value that starts inside `[min, max]` inside. */
  lemma HandleClickKeepsRange(b: Button, q: QtyInput)
    requires InRange(q)
    ensures InRange(HandleClick(b, q).input)
  {
  }

  /** One run of the handler never moves a value further outside `[min, max]`. */
  lemma HandleClickNeverPushesOut(b: Button, q: QtyInput)
    ensures Distance(HandleClick(b, q).input) <= Distance(q)
  {
  }

  /** Any number of bound handlers keeps a value that starts in range in range. */
  lemma {:induction false} ClickKeepsRange(b: Button, q: QtyInput, handlers: nat)
    requires InRange(q)
    ensures InRange(Click(b, q, handlers).input)
    decreases handlers
  {
    if handlers > 0 {
      HandleClickKeepsRange(b, q);
      ClickKeepsRange(b, HandleClick(b, q).input, handlers - 1);
    }
  }

  /** Any number of bound handlers never moves a value further outside the range. */
  lemma {:induction false} ClickNeverPushesOut(b: Button, q: QtyInput, handlers: nat)
    ensures Distance(Click(b, q, handlers).input) <= Distance(q)
    decreases handlers
  {
    if handlers > 0 {
      HandleClickNeverPushesOut(b, q);
      ClickNeverPushesOut(b, HandleClick(b, q).input, handlers - 1);
    }
  }

  /** A minus click never raises the value the handler reads, a plus click never lowers it. */
  lemma {:induction false} ClickDirection(b: Button, q: QtyInput, handlers: nat)
    ensures b == Minus ==> Current(Click(b, q, handlers).input) <= Current(q)
    ensures b == Plus ==> Current(Click(b, q, handlers).input) >= Current(q)
    ensures b == Neither ==> Click(b, q, handlers).input == q
    decreases handlers
  {
    if handlers > 0 {
      Fallbacks(q);
      var next := HandleClick(b, q).input;
      Fallbacks(next);
      ClickDirection(b, next, handlers - 1);
    }
  }

  /** With a positive effective min and a value in range, a click with `handlers` copies
      bound moves the value exactly `handlers` steps towards the bound it points at and stops
      there, raising one `change` per step actually taken. So it moves by at most `handlers`,
      and by exactly one when one copy is bound and the bound is not yet reached. */
  lemma {:induction false} ClickSteps(b: Button, q: QtyInput, handlers: nat)
    requires Lo(q) >= 1 && InRange(q)
    ensures var r := Click(b, q, handlers);
      && (b == Minus ==> Current(r.input) == Max(Lo(q), Current(q) - handlers)
                         && r.changes == Current(q) - Current(r.input))
      && (b == Plus ==> Current(r.input) == Min(Hi(q), Current(q) + handlers)
                        && r.changes == Current(r.input) - Current(q))
      && Current(r.input) - Current(q) <= handlers
      && Current(q) - Current(r.input) <= handlers
    decreases handlers
  {
    if handlers > 0 {
      var first := HandleClick(b, q);
      assert Lo(first.input) == Lo(q) && Hi(first.input) == Hi(q);
      assert first.changed ==> Current(first.input) == first.input.value.value;
      HandleClickKeepsRange(b, q);
      ClickSteps(b, first.input, handlers - 1);
    }
  }

  /** The scenario `min=1`, `max=5`, value 5, one handler bound: plus leaves 5 and raises
      nothing; minus writes 4 and raises exactly one `change`. */
  lemma AtUpperBoundScenario()
    ensures Click(Plus, QtyInput(Some(5), Some(1), Some(5)), 1) == Clicked(QtyInput(Some(5), Some(1), Some(5)), 0)
    ensures Click(Minus, QtyInput(Some(5), Some(1), Some(5)), 1) == Clicked(QtyInput(Some(4), Some(1), Some(5)), 1)
  {
  }

  /** `min="0"` behaves as `min="1"`: a minus click at 1 writes nothing. */
  lemma ZeroMinActsAsOne()
    ensures Click(Minus, QtyInput(Some(1), Some(0), None), 1) == Clicked(QtyInput(Some(1), Some(0), None), 0)
  {
  }

  /** With a negative min, a minus click at 1 writes 0, which every later run of the handler
      reads as 1 again: however many copies are bound, the value ends at 0 and each copy
      raises a `change`, so the value never goes below 0. */
  lemma {:induction false} MinusSticksAtZero(q: QtyInput, handlers: nat)
    requires Lo(q) < 1 && Current(q) == 1
    ensures Click(Minus, q, handlers) == Clicked(if handlers == 0 then q else q.(value := Some(0)), handlers)
    decreases handlers
  {
    if handlers > 0 {
      var next := q.(value := Some(0));
      assert HandleClick(Minus, q) == Run(next, true);
      MinusSticksAtZero(next, handlers - 1);
    }
  }

  // ---------------------------------------------------------------------------------------
  // Wrapping the inputs with buttons

  /** A descendant of a `.quantity` container, in document order. */
  datatype Node = QtyField | QtyButton(kind: Button) | Other(name: string)

  type Container = seq<Node>

  predicate HasButton(c: Container)
  {
    exists i :: 0 <= i < |c| && c[i].QtyButton?
  }

  /** The container with every button taken out. */
  function Strip(c: Container): (r: Container)
    ensures !HasButton(r)
    ensures |r| <= |c|
  {
    if c == [] then []
    else (if c[0].QtyButton? then [] else [c[0]]) + Strip(c[1..])
  }

  /** The `before` / `after` insertion for one node: a minus button in front of an
      `input.qty` and a plus button behind it; any other node stays as it is. */
  function Expand(n: Node): seq<Node>
  {
    if n == QtyField then [QtyButton(Minus), QtyField, QtyButton(Plus)] else [n]
  }

  /** The insertion applied to every `input.qty` the container holds: two nodes more per
      input, and a container without inputs comes back as it was. */
  function Surround(c: Container): (r: Container)
    ensures |r| == |c| + 2 * multiset(c)[QtyField]
    ensures QtyField !in c ==> r == c
    decreases |c|
  {
    if c == [] then []
    else
      assert c == [c[0]] + c[1..];
      assert multiset(c) == multiset([c[0]]) + multiset(c[1..]);
      assert QtyField !in c ==> QtyField !in c[1..];
      Expand(c[0]) + Surround(c[1..])
  }

  /** One container of the `.quantity` pass: left alone once it holds a `.qty-btn`;
      otherwise it keeps every node it had, and holds a button as soon as it holds an input. */
  function Wrap(c: Container): (r: Container)
    ensures HasButton(c) ==> r == c
    ensures Strip(r) == Strip(c)
    ensures QtyField in c ==> HasButton(r)
  {
    if HasButton(c) then c
    else
      SurroundOnlyAddsButtons(c);
      SurroundHasButton(c);
      Surround(c)
  }

  /** Every input sits between a minus button and a plus button. */
  predicate InputsFramed(r: Container)
  {
    forall i :: 0 <= i < |r| && r[i] == QtyField ==>
      0 < i < |r| - 1 && r[i - 1] == QtyButton(Minus) && r[i + 1] == QtyButton(Plus)
  }

  /** The button at `i` is a minus right before an input or a plus right after one. */
  predicate Hugs(r: Container, i: int)
    requires 0 <= i < |r| && r[i].QtyButton?
  {
    || (r[i].kind == Minus && i + 1 < |r| && r[i + 1] == QtyField)
    || (r[i].kind == Plus && 0 < i && r[i - 1] == QtyField)
  }

  /** Every button hugs an input. */
  predicate ButtonsHugInputs(r: Container)
  {
    forall i :: 0 <= i < |r| && r[i].QtyButton? ==> Hugs(r, i)
  }

  lemma {:induction false} StripAppend(a: Container, b: Container)
    ensures Strip(a + b) == Strip(a) + Strip(b)
    decreases |a|
  {
    if a == [] {
      assert a + b == b;
    } else {
      assert (a + b)[0] == a[0];
      assert (a + b)[1..] == a[1..] + b;
      StripAppend(a[1..], b);
    }
  }

  lemma NoButtonTail(c: Container)
    requires c != [] && !HasButton(c)
    ensures !c[0].QtyButton? && !HasButton(c[1..])
  {
  }

  lemma {:induction false} StripNoButton(c: Container)
    requires !HasButton(c)
    ensures Strip(c) == c
    decreases |c|
  {
    if c != [] {
      NoButtonTail(c);
      StripNoButton(c[1..]);
    }
  }

  lemma StripExpand(n: Node)
    ensures Strip(Expand(n)) == Strip([n])
  {
    if n == QtyField {
      var e := Expand(n);
      assert e[1..][1..][1..] == [];
      assert Strip(e[1..][1..]) == [];
      assert Strip(e[1..]) == [QtyField];
    }
  }

  /** `Surround` only adds buttons: taking the buttons out again gives what was there. */
  lemma {:induction false} SurroundOnlyAddsButtons(c: Container)
    ensures Strip(Surround(c)) == Strip(c)
    decreases |c|
  {
    if c != [] {
      SurroundOnlyAddsButtons(c[1..]);
      StripAppend(Expand(c[0]), Surround(c[1..]));
      StripExpand(c[0]);
      assert c == [c[0]] + c[1..];
      StripAppend([c[0]], c[1..]);
    }
  }

  lemma ExpandCounts(n: Node)
    ensures multiset(Expand(n))[QtyButton(Minus)] == multiset([n])[QtyButton(Minus)] + multiset([n])[QtyField]
    ensures multiset(Expand(n))[QtyButton(Plus)] == multiset([n])[QtyButton(Plus)] + multiset([n])[QtyField]
    ensures multiset(Expand(n))[QtyField] == multiset([n])[QtyField]
  {
  }

  lemma ExpandKeepsOthers(n: Node, m: Node)
    requires m != QtyButton(Minus) && m != QtyButton(Plus)
    ensures multiset(Expand(n))[m] == multiset([n])[m]
  {
  }

  lemma MultisetSplit(c: Container)
    requires c != []
    ensures multiset(c) == multiset([c[0]]) + multiset(c[1..])
  {
    assert c == [c[0]] + c[1..];
  }

  lemma {:induction false} SurroundKeepsOthers(c: Container, n: Node)
    requires n != QtyButton(Minus) && n != QtyButton(Plus)
    ensures multiset(Surround(c))[n] == multiset(c)[n]
    decreases |c|
  {
    if c != [] {
      SurroundKeepsOthers(c[1..], n);
      ExpandKeepsOthers(c[0], n);
      MultisetSplit(c);
      var s := Surround(c);
      assert s == Expand(c[0]) + Surround(c[1..]);
      assert multiset(s) == multiset(Expand(c[0])) + multiset(Surround(c[1..]));
    }
  }

  /** `Surround` adds exactly one minus and one plus button per input, and nothing else: every
      other node, a button with neither class included, occurs as often as before, and taking
      the buttons out gives back what was there. */
  lemma SurroundCounts(c: Container)
    ensures multiset(Surround(c))[QtyButton(Minus)] == multiset(c)[QtyButton(Minus)] + multiset(c)[QtyField]
    ensures multiset(Surround(c))[QtyButton(Plus)] == multiset(c)[QtyButton(Plus)] + multiset(c)[QtyField]
    ensures forall n :: n != QtyButton(Minus) && n != QtyButton(Plus) ==>
      multiset(Surround(c))[n] == multiset(c)[n]
    ensures Strip(Surround(c)) == Strip(c)
  {
    SurroundOnlyAddsButtons(c);
    forall n | n != QtyButton(Minus) && n != QtyButton(Plus)
      ensures multiset(Surround(c))[n] == multiset(c)[n]
    {
      SurroundKeepsOthers(c, n);
    }
    SurroundAddsButtons(c, Minus);
    SurroundAddsButtons(c, Plus);
  }

  lemma {:induction false} SurroundAddsButtons(c: Container, b: Button)
    requires b != Neither
    ensures multiset(Surround(c))[QtyButton(b)] == multiset(c)[QtyButton(b)] + multiset(c)[QtyField]
    decreases |c|
  {
    if c != [] {
      SurroundAddsButtons(c[1..], b);
      ExpandCounts(c[0]);
      MultisetSplit(c);
      var s := Surround(c);
      assert s == Expand(c[0]) + Surround(c[1..]);
      assert multiset(s) == multiset(Expand(c[0])) + multiset(Surround(c[1..]));
    }
  }

  lemma FramedAppend(a: Container, b: Container)
    requires InputsFramed(a) && InputsFramed(b)
    requires a == [] || a[|a| - 1] != QtyField
    requires b == [] || b[0] != QtyField
    ensures InputsFramed(a + b)
  {
  }

  /** Every input `Surround` leaves sits between a minus and a plus button. */
  lemma {:induction false} SurroundFramesInputs(c: Container)
    ensures InputsFramed(Surround(c))
    ensures Surround(c) == [] || Surround(c)[0] != QtyField
    decreases |c|
  {
    if c != [] {
      SurroundFramesInputs(c[1..]);
      FramedAppend(Expand(c[0]), Surround(c[1..]));
    }
  }

  lemma HugAppend(a: Container, b: Container)
    requires ButtonsHugInputs(a) && ButtonsHugInputs(b)
    requires b == [] || !b[0].QtyButton? || b[0].kind == Minus
    requires a == [] || !a[|a| - 1].QtyButton? || a[|a| - 1].kind == Plus
    ensures ButtonsHugInputs(a + b)
  {
  }

  /** The converse placement: in a container that had no buttons, every button `Surround`
      puts in sits next to an input, a minus just before it, a plus just after it. */
  lemma {:induction false} SurroundButtonsHugInputs(c: Container)
    requires !HasButton(c)
    ensures ButtonsHugInputs(Surround(c))
    ensures Surround(c) == [] || !Surround(c)[0].QtyButton? || Surround(c)[0].kind == Minus
    decreases |c|
  {
    if c != [] {
      NoButtonTail(c);
      SurroundButtonsHugInputs(c[1..]);
      HugAppend(Expand(c[0]), Surround(c[1..]));
    }
  }

  /** After the pass, a container that had no buttons holds its old nodes in the old order,
      a minus button right before and a plus button right after every input, one of each per
      input and no other buttons. A container that already held a button is unchanged. */
  lemma WrapPlacesButtons(c: Container)
    ensures HasButton(c) ==> Wrap(c) == c
    ensures !HasButton(c) ==>
      && Strip(Wrap(c)) == c
      && InputsFramed(Wrap(c))
      && ButtonsHugInputs(Wrap(c))
      && multiset(Wrap(c))[QtyButton(Minus)] == multiset(c)[QtyField]
      && multiset(Wrap(c))[QtyButton(Plus)] == multiset(c)[QtyField]
  {
    if !HasButton(c) {
      SurroundOnlyAddsButtons(c);
      SurroundFramesInputs(c);
      SurroundButtonsHugInputs(c);
      SurroundCounts(c);
      StripNoButton(c);
    }
  }

  /** The pass is idempotent: a second pass over a wrapped container changes nothing. */
  lemma WrapIdempotent(c: Container)
    ensures Wrap(Wrap(c)) == Wrap(c)
  {
  }

  /** An input brings a minus button along. */
  lemma SurroundHasButton(c: Container)
    ensures QtyField in c ==> HasButton(Surround(c))
  {
    if QtyField in c {
      var r := Surround(c);
      SurroundCounts(c);
      assert QtyButton(Minus) in multiset(r);
      var j :| 0 <= j < |r| && r[j] == QtyButton(Minus);
      assert r[j].QtyButton?;
    }
  }

  // ---------------------------------------------------------------------------------------
  // `quantityButtons()` on the page, at `document.ready` and on every `ajaxComplete`

  /** The page as the stepper sees it: how many copies of the click handler are bound to
      `document`, and the `.quantity` containers. */
  datatype Page = Page(handlers: nat, containers: seq<Container>)

  function WrapAll(cs: seq<Container>): (r: seq<Container>)
    ensures |r| == |cs| && forall i :: 0 <= i < |cs| ==> r[i] == Wrap(cs[i])
  {
    seq(|cs|, i requires 0 <= i < |cs| => Wrap(cs[i]))
  }

  /** `quantityButtons()` as written: binds one more copy of the handler, then wraps. Every
      container keeps its nodes; one that had a button is untouched, one with an input has a
      button afterwards. */
  function QuantityButtons(p: Page): (r: Page)
    ensures r.handlers == p.handlers + 1
    ensures |r.containers| == |p.containers|
    ensures forall i :: 0 <= i < |p.containers| ==>
      && Strip(r.containers[i]) == Strip(p.containers[i])
      && (HasButton(p.containers[i]) ==> r.containers[i] == p.containers[i])
      && (QtyField in p.containers[i] ==> HasButton(r.containers[i]))
  {
    Page(p.handlers + 1, WrapAll(p.containers))
  }

  /** The page after `document.ready` and `reloads` `ajaxComplete` events, each of which
      calls `quantityButtons()` again. */
  function AfterReloads(p: Page, reloads: nat): (r: Page)
    ensures r.handlers == p.handlers + reloads + 1
    decreases reloads
  {
    if reloads == 0 then QuantityButtons(p) else QuantityButtons(AfterReloads(p, reloads - 1))
  }

  lemma WrapAllIdempotent(cs: seq<Container>)
    ensures WrapAll(WrapAll(cs)) == WrapAll(cs)
  {
    forall i | 0 <= i < |cs| ensures WrapAll(WrapAll(cs))[i] == WrapAll(cs)[i] {
      WrapIdempotent(cs[i]);
    }
  }

  /** Re-running the pass never wraps a container twice, but every run binds another copy
      of the click handler: after `reloads` AJAX completions, `reloads + 1` copies run. */
  lemma {:induction false} ReloadsAccumulateHandlers(p: Page, reloads: nat)
    ensures AfterReloads(p, reloads).handlers == p.handlers + reloads + 1
    ensures AfterReloads(p, reloads).containers == WrapAll(p.containers)
    decreases reloads
  {
    if reloads > 0 {
      ReloadsAccumulateHandlers(p, reloads - 1);
      WrapAllIdempotent(p.containers);
    }
  }

  /** The containers an AJAX completion left on the page: those already there, followed by
      the ones its response inserted. */
  function Load(p: Page, inserted: seq<Container>): (r: Page)
    ensures r.handlers == p.handlers && |r.containers| == |p.containers| + |inserted|
    ensures r.containers[..|p.containers|] == p.containers
    ensures r.containers[|p.containers|..] == inserted
  {
    p.(containers := p.containers + inserted)
  }

  /** Every container inserted, in order: `loaded[i]` is what the `i`-th completion inserted. */
  function Flatten(loaded: seq<seq<Container>>): seq<Container>
    decreases |loaded|
  {
    if loaded == [] then [] else Flatten(loaded[..|loaded| - 1]) + loaded[|loaded| - 1]
  }

  /** The page after `document.ready` and one `ajaxComplete` per entry of `loaded`, each
      inserting its containers before `quantityButtons()` runs again. */
  function AfterLoads(p: Page, loaded: seq<seq<Container>>): (r: Page)
    ensures r.handlers == p.handlers + |loaded| + 1
    decreases |loaded|
  {
    if loaded == [] then QuantityButtons(p)
    else QuantityButtons(Load(AfterLoads(p, loaded[..|loaded| - 1]), loaded[|loaded| - 1]))
  }

  lemma WrapAllAppend(a: seq<Container>, b: seq<Container>)
    ensures WrapAll(a + b) == WrapAll(a) + WrapAll(b)
  {
  }

  /** Whatever the AJAX responses insert, every container on the page is wrapped exactly once
      by the pass that first sees it, and later passes leave it alone; only the bound handlers
      pile up, one more per completion. */
  lemma {:induction false} LoadsWrapEachContainerOnce(p: Page, loaded: seq<seq<Container>>)
    ensures AfterLoads(p, loaded).containers == WrapAll(p.containers + Flatten(loaded))
    ensures AfterLoads(p, loaded).handlers == p.handlers + |loaded| + 1
    decreases |loaded|
  {
    if loaded != [] {
      var init := loaded[..|loaded| - 1];
      var last := loaded[|loaded| - 1];
      LoadsWrapEachContainerOnce(p, init);
      var before := p.containers + Flatten(init);
      calc {
        AfterLoads(p, loaded).containers;
        WrapAll(WrapAll(before) + last);
        { WrapAllAppend(WrapAll(before), last); }
        WrapAll(WrapAll(before)) + WrapAll(last);
        { WrapAllIdempotent(before); }
        WrapAll(before) + WrapAll(last);
        { WrapAllAppend(before, last); }
        WrapAll(before + last);
        { assert before + last == p.containers + Flatten(loaded); }
        WrapAll(p.containers + Flatten(loaded));
      }
    }
  }

  /** The handler duplication as written: after one AJAX completion, a single plus click on
      a quantity of 1 (no `max`) lands on 3 and raises two `change` events. */
  lemma DuplicateHandlersDoubleStep()
    ensures var p := AfterReloads(Page(0, []), 1);
      Click(Plus, QtyInput(Some(1), Some(1), None), p.handlers) == Clicked(QtyInput(Some(3), Some(1), None), 2)
  {
  }

  /** `quantityButtons()` with the handler bound once (unbinding the earlier copy first):
      exactly one copy is bound afterwards. */
  function QuantityButtonsBindOnce(p: Page): Page
  {
    Page(1, WrapAll(p.containers))
  }

  function AfterReloadsBindOnce(p: Page, reloads: nat): Page
    decreases reloads
  {
    if reloads == 0 then QuantityButtonsBindOnce(p)
    else QuantityButtonsBindOnce(AfterReloadsBindOnce(p, reloads - 1))
  }

  /** With the handler bound once, however many AJAX completions there were, one click on an
      in-range value raises at most one `change`, writes at most one value, one step away
      from the value read, and keeps the value in range; with a positive min the value read
      afterwards is at most one step away too. */
  lemma {:induction false} BindOnceSingleStep(p: Page, reloads: nat, b: Button, q: QtyInput)
    requires InRange(q)
    ensures AfterReloadsBindOnce(p, reloads).handlers == 1
    ensures AfterReloadsBindOnce(p, reloads).containers == WrapAll(p.containers)
    ensures var r := Click(b, q, AfterReloadsBindOnce(p, reloads).handlers);
      && r.changes <= 1
      && (r.changes == 0 ==> r.input == q)
      && (r.changes == 1 ==>
            && r.input.value.Some?
            && (r.input.value.value == Current(q) - 1 || r.input.value.value == Current(q) + 1))
      && InRange(r.input)
      && (Lo(q) >= 1 ==> -1 <= Current(r.input) - Current(q) <= 1)
    decreases reloads
  {
    if reloads > 0 {
      BindOnceSingleStep(p, reloads - 1, b, q);
      WrapAllIdempotent(p.containers);
    }
    ClickKeepsRange(b, q, 1);
    if Lo(q) >= 1 {
      ClickSteps(b, q, 1);
    }
  }
}
