/** Attribution of program events from transaction logs: the call-stack machine of sdk/verify.ts. */
module EventLog {
  import opened Wrappers

  type Program = seq<char>

  /** A classified log line: `Data` carries the event when one of the decoders accepts it. */
  datatype Line<E> = Invoke(p: Program) | Finish(p: Program) | Data(event: Option<E>) | Other

  /** The call tree behind a log. */
  datatype Item<E> = Frame(p: Program, body: seq<Item<E>>) | Emit(event: Option<E>) | Note

  // ---------------------------------------------------------------- the machine

  type Stack = seq<Program>

  /** Drops the topmost occurrence of p, if there is one. */
  function RemoveTopmost(stack: Stack, p: Program): Stack {
    if stack == [] then []
    else if stack[|stack| - 1] == p then stack[..|stack| - 1]
    else RemoveTopmost(stack[..|stack| - 1], p) + [stack[|stack| - 1]]
  }

  function StepStack<E>(stack: Stack, line: Line<E>): Stack {
    match line
    case Invoke(p) => stack + [p]
    case Finish(p) => RemoveTopmost(stack, p)
    case Data(_) => stack
    case Other => stack
  }

  /** The stack after some lines, starting from `stack`. */
  function StackAfter<E>(stack: Stack, lines: seq<Line<E>>): Stack {
    if lines == [] then stack else StepStack(StackAfter(stack, lines[..|lines| - 1]), lines[|lines| - 1])
  }

  /** A data line seen by the machine, with the program on top of its stack. */
  datatype Emission<E> = Emission(program: Program, event: Option<E>)

  function EmissionOf<E>(stack: Stack, line: Line<E>): seq<Emission<E>> {
    if line.Data? && stack != [] then [Emission(stack[|stack| - 1], line.event)] else []
  }

  /** Everything the machine attributes, in log order. */
  function Emissions<E>(stack: Stack, lines: seq<Line<E>>): seq<Emission<E>> {
    if lines == [] then []
    else
      var init := lines[..|lines| - 1];
      Emissions(stack, init) + EmissionOf(StackAfter(stack, init), lines[|lines| - 1])
  }

  // ---------------------------------------------------------------- the call tree

  function Flatten<E>(items: seq<Item<E>>): seq<Line<E>> {
    if items == [] then [] else FlattenItem(items[0]) + Flatten(items[1..])
  }

  function FlattenItem<E>(item: Item<E>): seq<Line<E>> {
    match item
    case Frame(p, body) => [Invoke(p)] + Flatten(body) + [Finish(p)]
    case Emit(e) => [Data(e)]
    case Note => [Other]
  }

  /** The call chain in which each line of the log is produced: for an invoke line the chain of the
      caller, for a finish line the chain still including the finishing program. */
  function Chains<E>(chain: Stack, items: seq<Item<E>>): seq<Stack>
    decreases items
  {
    if items == [] then [] else ItemChains(chain, items[0]) + Chains(chain, items[1..])
  }

  function ItemChains<E>(chain: Stack, item: Item<E>): seq<Stack>
    decreases item
  {
    match item
    case Frame(p, body) => [chain] + Chains(chain + [p], body) + [chain + [p]]
    case Emit(_) => [chain]
    case Note => [chain]
  }

  /** The data lines of the tree with the program whose frame they are directly in; data outside any
      frame is dropped. */
  function Owned<E>(chain: Stack, items: seq<Item<E>>): seq<Emission<E>>
    decreases items
  {
    if items == [] then [] else OwnedItem(chain, items[0]) + Owned(chain, items[1..])
  }

  function OwnedItem<E>(chain: Stack, item: Item<E>): seq<Emission<E>>
    decreases item
  {
    match item
    case Frame(p, body) => Owned(chain + [p], body)
    case Emit(e) => if chain == [] then [] else [Emission(chain[|chain| - 1], e)]
    case Note => []
  }

  function Invoked<E>(items: seq<Item<E>>, p: Program): bool {
    items != [] && (InvokedItem(items[0], p) || Invoked(items[1..], p))
  }

  function InvokedItem<E>(item: Item<E>, p: Program): bool {
    item.Frame? && (item.p == p || Invoked(item.body, p))
  }

  // ---------------------------------------------------------------- composition

  lemma {:induction false} StackAfterConcat<E>(stack: Stack, a: seq<Line<E>>, b: seq<Line<E>>)
    ensures StackAfter(stack, a + b) == StackAfter(StackAfter(stack, a), b)
    ensures Emissions(stack, a + b) == Emissions(stack, a) + Emissions(StackAfter(stack, a), b)
  {
    if b == [] {
      assert a + b == a;
    } else {
      var n := |b| - 1;
      assert (a + b)[..|a + b| - 1] == a + b[..n];
      StackAfterConcat(stack, a, b[..n]);
    }
  }

  lemma SingleLine<E>(stack: Stack, line: Line<E>)
    ensures StackAfter(stack, [line]) == StepStack(stack, line)
    ensures Emissions(stack, [line]) == EmissionOf(stack, line)
  {
    assert [line][..0] == [];
    assert StackAfter(stack, [line][..0]) == stack;
  }

  /** Over a complete call tree the machine returns to the chain it started from and attributes
      every data line to the frame it is directly in. */
  lemma {:induction false} TreeBalanced<E>(chain: Stack, items: seq<Item<E>>)
    ensures StackAfter(chain, Flatten(items)) == chain
    ensures Emissions(chain, Flatten(items)) == Owned(chain, items)
    decreases items
  {
    if items != [] {
      ItemBalanced(chain, items[0]);
      TreeBalanced(chain, items[1..]);
      StackAfterConcat(chain, FlattenItem(items[0]), Flatten(items[1..]));
    }
  }

  /** Wrapping balanced lines in an invoke and a finish of p keeps them balanced. */
  lemma FrameBalanced<E>(chain: Stack, p: Program, inner: seq<Line<E>>)
    requires StackAfter(chain + [p], inner) == chain + [p]
    ensures StackAfter(chain, [Invoke(p)] + inner + [Finish(p)]) == chain
    ensures Emissions(chain, [Invoke(p)] + inner + [Finish(p)]) == Emissions(chain + [p], inner)
  {
    var open: seq<Line<E>>, close: seq<Line<E>> := [Invoke(p)], [Finish(p)];
    SingleLine<E>(chain, Invoke(p));
    SingleLine<E>(chain + [p], Finish(p));
    StackAfterConcat(chain, open, inner);
    StackAfterConcat(chain, open + inner, close);
    assert (chain + [p])[..|chain|] == chain;
    assert Emissions(chain, open + inner) == [] + Emissions(chain + [p], inner);
  }

  lemma {:induction false} ItemBalanced<E>(chain: Stack, item: Item<E>)
    ensures StackAfter(chain, FlattenItem(item)) == chain
    ensures Emissions(chain, FlattenItem(item)) == OwnedItem(chain, item)
    decreases item
  {
    match item
    case Frame(p, body) =>
      TreeBalanced(chain + [p], body);
      FrameBalanced(chain, p, Flatten(body));
    case Emit(e) => SingleLine(chain, Line<E>.Data(e));
    case Note => SingleLine<E>(chain, Other);
  }

  lemma {:induction false} SameLength<E>(chain: Stack, items: seq<Item<E>>)
    ensures |Chains(chain, items)| == |Flatten(items)|
    decreases items
  {
    if items != [] {
      ItemSameLength(chain, items[0]);
      SameLength(chain, items[1..]);
    }
  }

  lemma {:induction false} ItemSameLength<E>(chain: Stack, item: Item<E>)
    ensures |ItemChains(chain, item)| == |FlattenItem(item)|
    decreases item
  {
    match item
    case Frame(p, body) => SameLength(chain + [p], body);
    case Emit(e) =>
    case Note =>
  }

  /** At every line of a well-nested log, complete or cut short, the stack is the live call chain. */
  lemma {:induction false} StackIsCallChain<E>(chain: Stack, items: seq<Item<E>>, k: nat)
    requires k < |Flatten(items)|
    ensures |Chains(chain, items)| == |Flatten(items)|
    ensures StackAfter(chain, Flatten(items)[..k]) == Chains(chain, items)[k]
    decreases items
  {
    SameLength(chain, items);
    var head := FlattenItem(items[0]);
    ItemSameLength(chain, items[0]);
    if k < |head| {
      ItemStack(chain, items[0], k);
      assert Flatten(items)[..k] == head[..k];
    } else {
      StackIsCallChain(chain, items[1..], k - |head|);
      StackPastItem(chain, items[0], Flatten(items[1..]), k - |head|);
    }
  }

  lemma StackPastItem<E>(chain: Stack, item: Item<E>, rest: seq<Line<E>>, k: nat)
    requires k <= |rest|
    ensures var head := FlattenItem(item);
            StackAfter(chain, (head + rest)[..|head| + k]) == StackAfter(chain, rest[..k])
  {
    var head := FlattenItem(item);
    ItemBalanced(chain, item);
    assert (head + rest)[..|head| + k] == head + rest[..k];
    StackAfterConcat(chain, head, rest[..k]);
  }

  lemma {:induction false} ItemStack<E>(chain: Stack, item: Item<E>, k: nat)
    requires k < |FlattenItem(item)|
    ensures |ItemChains(chain, item)| == |FlattenItem(item)|
    ensures StackAfter(chain, FlattenItem(item)[..k]) == ItemChains(chain, item)[k]
    decreases item
  {
    ItemSameLength(chain, item);
    if k > 0 {
      var p, body := item.p, item.body;
      var inner := Flatten(body);
      SameLength(chain + [p], body);
      InnerStack(chain, p, inner, k - 1);
      if k - 1 < |inner| {
        StackIsCallChain(chain + [p], body, k - 1);
      } else {
        assert inner[..k - 1] == inner;
        TreeBalanced(chain + [p], body);
      }
    }
  }

  lemma InnerStack<E>(chain: Stack, p: Program, inner: seq<Line<E>>, k: nat)
    requires k <= |inner|
    ensures StackAfter(chain, ([Invoke(p)] + inner + [Finish(p)])[..k + 1]) == StackAfter(chain + [p], inner[..k])
  {
    var open: seq<Line<E>> := [Invoke(p)];
    SingleLine<E>(chain, Invoke(p));
    assert (open + inner + [Finish(p)])[..k + 1] == open + inner[..k];
    StackAfterConcat(chain, open, inner[..k]);
  }

  // ---------------------------------------------------------------- the verifier's verdict

  datatype Verdict<E> =
    | Found(event: E)
    | EmittedBy(program: Program)
    | ProgramAbsent
    | DiscriminatorMismatch
    | EventNotFound

  /** The first event emitted under the expected program, if any. */
  function FirstOwn<E>(es: seq<Emission<E>>, expected: Program): Option<E> {
    if es == [] then None
    else if es[0].program == expected && es[0].event.Some? then es[0].event
    else FirstOwn(es[1..], expected)
  }

  /** The first other program that emitted an event. */
  function FirstForeign<E>(es: seq<Emission<E>>, expected: Program): Option<Program> {
    if es == [] then None
    else if es[0].program != expected && es[0].event.Some? then Some(es[0].program)
    else FirstForeign(es[1..], expected)
  }

  predicate HasOwnData<E>(es: seq<Emission<E>>, expected: Program) {
    exists i :: 0 <= i < |es| && es[i].program == expected
  }

  function Judge<E>(es: seq<Emission<E>>, invoked: bool, expected: Program): Verdict<E> {
    match FirstOwn(es, expected)
    case Some(e) => Found(e)
    case None =>
      match FirstForeign(es, expected)
      case Some(p) => EmittedBy(p)
      case None =>
        if !invoked then ProgramAbsent
        else if HasOwnData(es, expected) then DiscriminatorMismatch
        else EventNotFound
  }

  predicate HasInvoke<E>(lines: seq<Line<E>>, p: Program) {
    exists i :: 0 <= i < |lines| && lines[i] == Invoke(p)
  }

  lemma {:induction false} FirstSnoc<E>(es: seq<Emission<E>>, e: Emission<E>, expected: Program)
    ensures FirstOwn(es + [e], expected) ==
            if FirstOwn(es, expected).Some? then FirstOwn(es, expected)
            else if e.program == expected then e.event else None
    ensures FirstForeign(es + [e], expected) ==
            if FirstForeign(es, expected).Some? then FirstForeign(es, expected)
            else if e.program != expected && e.event.Some? then Some(e.program) else None
  {
    if es == [] {
      assert es + [e] == [e] && [e][1..] == [];
    } else {
      FirstSnoc(es[1..], e, expected);
      assert (es + [e])[1..] == es[1..] + [e];
    }
  }

  lemma OwnDataSnoc<E>(es: seq<Emission<E>>, e: Emission<E>, expected: Program)
    ensures HasOwnData(es + [e], expected) <==> HasOwnData(es, expected) || e.program == expected
  {
    assert (es + [e])[|es|] == e;
    assert forall i :: 0 <= i < |es| ==> (es + [e])[i] == es[i];
  }

  lemma {:induction false} FirstOwnStable<E>(es: seq<Emission<E>>, more: seq<Emission<E>>, expected: Program)
    requires FirstOwn(es, expected).Some?
    ensures FirstOwn(es + more, expected) == FirstOwn(es, expected)
  {
    if !(es[0].program == expected && es[0].event.Some?) {
      FirstOwnStable(es[1..], more, expected);
      assert (es + more)[1..] == es[1..] + more;
    }
  }

  /** The splice loop over the stack. */
  method Pop(stack: Stack, p: Program) returns (r: Stack)
    ensures r == RemoveTopmost(stack, p)
  {
    var index := |stack| - 1;
    assert stack[..|stack|] == stack && stack[|stack|..] == [];
    while index >= 0
      invariant -1 <= index < |stack|
      invariant RemoveTopmost(stack, p) == RemoveTopmost(stack[..index + 1], p) + stack[index + 1..]
      decreases index
    {
      var top := stack[..index + 1];
      assert top[..|top| - 1] == stack[..index];
      if stack[index] == p {
        return stack[..index] + stack[index + 1..];
      }
      assert RemoveTopmost(top, p) == RemoveTopmost(stack[..index], p) + [stack[index]];
      assert [stack[index]] + stack[index + 1..] == stack[index..];
      index := index - 1;
    }
    r := stack;
  }

  /** findOutcomeResolvedEvent over an arbitrary log. */
  method FindEvent<E>(logs: seq<Line<E>>, expected: Program) returns (r: Verdict<E>)
    ensures r == Judge(Emissions([], logs), HasInvoke(logs, expected), expected)
  {
    var stack: Stack := [];
    var sawInvoke, sawData := false, false;
    var foreign: Option<Program> := None;
    for i := 0 to |logs|
      invariant stack == StackAfter([], logs[..i])
      invariant FirstOwn(Emissions([], logs[..i]), expected).None?
      invariant foreign == FirstForeign(Emissions([], logs[..i]), expected)
      invariant sawInvoke == HasInvoke(logs[..i], expected)
      invariant sawData == HasOwnData(Emissions([], logs[..i]), expected)
    {
      LogStep(logs, i, expected);
      match logs[i] {
        case Invoke(p) =>
          stack := stack + [p];
          if p == expected { sawInvoke := true; }
        case Finish(p) =>
          stack := Pop(stack, p);
        case Other =>
        case Data(event) =>
          if |stack| == 0 { continue; }
          var current := stack[|stack| - 1];
          FirstSnoc(Emissions([], logs[..i]), Emission(current, event), expected);
          OwnDataSnoc(Emissions([], logs[..i]), Emission(current, event), expected);
          if current == expected {
            sawData := true;
            if event.Some? {
              LogSplit(logs, i + 1);
              FirstOwnStable(Emissions([], logs[..i + 1]), Emissions(StackAfter([], logs[..i + 1]), logs[i + 1..]), expected);
              return Found(event.value);
            }
          } else if event.Some? && foreign.None? {
            foreign := Some(current);
          }
      }
    }
    assert logs[..|logs|] == logs;
    if foreign.Some? {
      return EmittedBy(foreign.value);
    }
    if !sawInvoke {
      return ProgramAbsent;
    }
    r := if sawData then DiscriminatorMismatch else EventNotFound;
  }

  lemma LogStep<E>(logs: seq<Line<E>>, i: nat, expected: Program)
    requires i < |logs|
    ensures StackAfter([], logs[..i + 1]) == StepStack(StackAfter([], logs[..i]), logs[i])
    ensures Emissions([], logs[..i + 1]) == Emissions([], logs[..i]) + EmissionOf(StackAfter([], logs[..i]), logs[i])
    ensures Emissions([], logs[..i]) + [] == Emissions([], logs[..i])
    ensures HasInvoke(logs[..i + 1], expected) <==> HasInvoke(logs[..i], expected) || logs[i] == Invoke(expected)
  {
    assert logs[..i + 1][..i] == logs[..i];
    assert logs[..i + 1][i] == logs[i];
    assert forall k :: 0 <= k < i ==> logs[..i + 1][k] == logs[..i][k];
  }

  lemma LogSplit<E>(logs: seq<Line<E>>, i: nat)
    requires i <= |logs|
    ensures Emissions([], logs) == Emissions([], logs[..i]) + Emissions(StackAfter([], logs[..i]), logs[i..])
  {
    assert logs == logs[..i] + logs[i..];
    StackAfterConcat([], logs[..i], logs[i..]);
  }

  lemma {:induction false} InvokeInTree<E>(items: seq<Item<E>>, p: Program)
    ensures HasInvoke(Flatten(items), p) <==> Invoked(items, p)
    decreases items
  {
    if items != [] {
      InvokeInItem(items[0], p);
      InvokeInTree(items[1..], p);
      HasInvokeConcat(FlattenItem(items[0]), Flatten(items[1..]), p);
    }
  }

  lemma HasInvokeConcat<E>(a: seq<Line<E>>, b: seq<Line<E>>, p: Program)
    ensures HasInvoke(a + b, p) <==> HasInvoke(a, p) || HasInvoke(b, p)
  {
    if HasInvoke(a, p) {
      var i :| 0 <= i < |a| && a[i] == Invoke(p);
      assert (a + b)[i] == Invoke(p);
    }
    if HasInvoke(b, p) {
      var i :| 0 <= i < |b| && b[i] == Invoke(p);
      assert (a + b)[|a| + i] == Invoke(p);
    }
  }

  lemma {:induction false} InvokeInItem<E>(item: Item<E>, p: Program)
    ensures HasInvoke(FlattenItem(item), p) <==> InvokedItem(item, p)
    decreases item
  {
    match item
    case Frame(q, body) =>
      InvokeInTree(body, p);
      var inner := Flatten(body);
      HasInvokeConcat([Line<E>.Invoke(q)], inner, p);
      HasInvokeConcat([Line<E>.Invoke(q)] + inner, [Line<E>.Finish(q)], p);
      assert [Line<E>.Invoke(q)][0] == Invoke(q);
    case Emit(e) =>
    case Note =>
  }

  /** Attribution is right: on every well-nested log the verdict is the one read off the call tree -
      the first decodable event emitted directly in a frame of the expected program, and a mismatch
      exactly when the tree has none. */
  lemma VerdictOnTrees<E>(items: seq<Item<E>>, expected: Program)
    ensures Judge(Emissions([], Flatten(items)), HasInvoke(Flatten(items), expected), expected)
         == Judge(Owned([], items), Invoked(items, expected), expected)
  {
    TreeBalanced([], items);
    InvokeInTree(items, expected);
  }

  /** The data lines of a log with the programs at the ends of the given chains; lines outside any
      frame are dropped. */
  function Attributed<E>(lines: seq<Line<E>>, chains: seq<Stack>): seq<Emission<E>>
    requires |lines| == |chains|
  {
    if lines == [] then [] else
      var n := |lines| - 1;
      Attributed(lines[..n], chains[..n]) + EmissionOf(chains[n], lines[n])
  }

  lemma {:induction false} CutLogEmissions<E>(items: seq<Item<E>>, k: nat)
    requires k <= |Flatten(items)|
    ensures |Chains([], items)| == |Flatten(items)|
    ensures Emissions([], Flatten(items)[..k]) == Attributed(Flatten(items)[..k], Chains([], items)[..k])
  {
    SameLength<E>([], items);
    if k > 0 {
      CutLogEmissions(items, k - 1);
      StackIsCallChain([], items, k - 1);
      var lines, chains := Flatten(items)[..k], Chains([], items)[..k];
      assert lines[..k - 1] == Flatten(items)[..k - 1] && chains[..k - 1] == Chains([], items)[..k - 1];
    }
  }

  /** Attribution is right on logs cut short anywhere, inside frames too: the verdict is the one read
      off the lines that are there, each data line belonging to the innermost frame open in the tree. */
  lemma VerdictOnCutLogs<E>(items: seq<Item<E>>, k: nat, expected: Program)
    requires k <= |Flatten(items)|
    ensures |Chains([], items)| == |Flatten(items)|
    ensures var log := Flatten(items)[..k];
            Judge(Emissions([], log), HasInvoke(log, expected), expected)
            == Judge(Attributed(log, Chains([], items)[..k]), HasInvoke(log, expected), expected)
  {
    CutLogEmissions(items, k);
  }

  predicate HasOwnEvent<E>(es: seq<Emission<E>>, expected: Program) {
    exists i :: 0 <= i < |es| && es[i].program == expected && es[i].event.Some?
  }

  lemma OwnEventHead<E>(es: seq<Emission<E>>, expected: Program)
    requires es != []
    ensures HasOwnEvent(es, expected) <==>
            (es[0].program == expected && es[0].event.Some?) || HasOwnEvent(es[1..], expected)
  {
    if HasOwnEvent(es[1..], expected) {
      var i :| 0 <= i < |es[1..]| && es[1..][i].program == expected && es[1..][i].event.Some?;
      assert es[i + 1] == es[1..][i];
    }
    assert forall i :: 0 < i < |es| ==> es[1..][i - 1] == es[i];
  }

  /** The verdict is a mismatch exactly when no frame of the expected program emits an event directly. */
  lemma {:induction false} FoundIff<E>(es: seq<Emission<E>>, invoked: bool, expected: Program)
    ensures Judge(es, invoked, expected).Found? <==> HasOwnEvent(es, expected)
    decreases |es|
  {
    if es != [] {
      OwnEventHead(es, expected);
      FoundIff(es[1..], invoked, expected);
    }
  }
}
