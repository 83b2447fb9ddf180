/** The concrete handlers of the chain-of-responsibility example. A handler
    either recognises the request string, prints one line and stops, or hands
    the request unchanged to its `nextHandler`, if it has one. A chain is the
    handler the request is given to followed by the handlers reachable through
    `nextHandler`; the printed lines are the result. */
module ChainOfResponsibility {

  datatype Option<T> = None | Some(value: T)

  /** The two concrete handler classes, `ConcreteHandlerA` and `ConcreteHandlerB`. */
  datatype HandlerKind = HandlerA | HandlerB

  /** The one request string each handler recognises. */
  function Key(h: HandlerKind): string {
    match h
    case HandlerA => "requestA"
    case HandlerB => "requestB"
  }

  /** `getClass().getSimpleName()` of each handler. */
  function ClassName(h: HandlerKind): string {
    match h
    case HandlerA => "ConcreteHandlerA"
    case HandlerB => "ConcreteHandlerB"
  }

  /** The line a handler prints for the request it handles. There is no space
      between the class name and the fixed text. */
  function Line(h: HandlerKind, request: string): string {
    ClassName(h) + "deal with request " + request
  }

  /** `handleRequest(request)` called on a handler of kind `h` whose successors
      through `nextHandler` are `next` (empty: `nextHandler` is `null`). The
      result is the sequence of lines printed while the request travels down
      the chain: one line if some handler recognises it, none otherwise. */
  function HandleRequest(h: HandlerKind, next: seq<HandlerKind>, request: string): (out: seq<string>)
    ensures |out| <= 1
    ensures out == [] <==> Key(h) != request && forall t :: 0 <= t < |next| ==> Key(next[t]) != request
    decreases |next|
  {
    if request == Key(h) then [Line(h, request)]
    else if next != [] then HandleRequest(next[0], next[1..], request)
    else []
  }

  /** The reference rule: the position of the first handler of `chain` whose
      key is the request, if any. */
  function FirstMatch(chain: seq<HandlerKind>, request: string): (r: Option<nat>)
    ensures r.Some? ==> r.value < |chain| && Key(chain[r.value]) == request
    ensures r.Some? ==> forall t :: 0 <= t < r.value ==> Key(chain[t]) != request
    ensures r.None? <==> forall t :: 0 <= t < |chain| ==> Key(chain[t]) != request
  {
    if chain == [] then None
    else if Key(chain[0]) == request then Some(0)
    else match FirstMatch(chain[1..], request)
      case None => None
      case Some(i) => Some(i + 1)
  }

  /** The request is handled by the first handler of the chain whose key it
      is, and by no other; with no such handler nothing is printed. */
  lemma {:induction false} HandledByFirstMatch(h: HandlerKind, next: seq<HandlerKind>, request: string)
    ensures FirstMatch([h] + next, request).None? ==> HandleRequest(h, next, request) == []
    ensures FirstMatch([h] + next, request).Some? ==>
      HandleRequest(h, next, request) == [Line(([h] + next)[FirstMatch([h] + next, request).value], request)]
    decreases |next|
  {
    var chain := [h] + next;
    if request != Key(h) && next != [] {
      HandledByFirstMatch(next[0], next[1..], request);
      assert chain[1..] == [next[0]] + next[1..];
    }
  }

  /** A handler that recognises the request stops there: what follows it in
      the chain makes no difference. */
  lemma HandlingStops(h: HandlerKind, next1: seq<HandlerKind>, next2: seq<HandlerKind>, request: string)
    requires request == Key(h)
    ensures HandleRequest(h, next1, request) == HandleRequest(h, next2, request) == [Line(h, request)]
  {
  }

  /** Handlers that do not recognise the request pass it on unchanged: a run
      of them, `g` and then `pre`, in front of `h` does not change what is
      printed. */
  lemma {:induction false} NonMatchingPrefixForwards(g: HandlerKind, pre: seq<HandlerKind>, h: HandlerKind, next: seq<HandlerKind>, request: string)
    requires Key(g) != request
    requires forall t :: 0 <= t < |pre| ==> Key(pre[t]) != request
    ensures HandleRequest(g, pre + [h] + next, request) == HandleRequest(h, next, request)
    decreases |pre|
  {
    var rest := pre + [h] + next;
    if pre == [] {
      assert rest[0] == h && rest[1..] == next;
    } else {
      assert rest[0] == pre[0] && rest[1..] == pre[1..] + [h] + next;
      NonMatchingPrefixForwards(pre[0], pre[1..], h, next, request);
    }
  }

  /** The two handlers recognise different requests. */
  lemma KeysDistinct()
    ensures Key(HandlerA) != Key(HandlerB)
  {
  }

  /** The line `ConcreteHandlerA` prints for "requestA". */
  lemma LineOfA()
    ensures Line(HandlerA, "requestA") == "ConcreteHandlerAdeal with request requestA"
  {
  }

  /** The line `ConcreteHandlerB` prints for "requestB". */
  lemma LineOfB()
    ensures Line(HandlerB, "requestB") == "ConcreteHandlerBdeal with request requestB"
  {
  }

  /** In the chain A -> B, "requestA" stops at A. */
  lemma ChainAThenBHandlesA()
    ensures HandleRequest(HandlerA, [HandlerB], "requestA") == ["ConcreteHandlerAdeal with request requestA"]
  {
    LineOfA();
  }

  /** In the chain A -> B, "requestB" passes A unchanged and is handled by B. */
  lemma ChainAThenBHandlesB()
    ensures HandleRequest(HandlerA, [HandlerB], "requestB") == ["ConcreteHandlerBdeal with request requestB"]
  {
    KeysDistinct();
    LineOfB();
  }

  /** In the chain A -> B, a request that is neither key is handled by no one. */
  lemma ChainAThenBDropsOthers(request: string)
    requires request != "requestA" && request != "requestB"
    ensures HandleRequest(HandlerA, [HandlerB], request) == []
  {
  }
}
