/**
 * The console's receive ring.  The main loop pushes what the UART has, the
 * command line takes it out; one place of the 64 stays free to tell full from empty.
 */
module Console {

  const RXBUF_SIZE := 64
  const BREAK := 0 as char
  const INTERRUPT := 3 as char

  /** The ring as its users see it. */
  datatype Line = Line(queue: seq<char>, interrupted: bool, keyed: bool)

  predicate Full(l: Line) {
    |l.queue| >= RXBUF_SIZE - 1
  }

  /** A byte that reaches the queue when there is room: neither noise nor the interrupt key. */
  predicate IsData(c: char) {
    c != BREAK && c != INTERRUPT
  }

  function Received(l: Line, c: char): Line {
    if c == BREAK then l
    else if c == INTERRUPT then l.(interrupted := true)
    else if Full(l) then l.(keyed := true)
    else l.(keyed := true, queue := l.queue + [c])
  }

  /** The bytes waiting in a ring, oldest first. */
  function Queue(buf: seq<char>, tail: nat, head: nat): (q: seq<char>)
    requires |buf| == RXBUF_SIZE && tail < RXBUF_SIZE && head < RXBUF_SIZE
    ensures |q| < RXBUF_SIZE
  {
    if tail <= head then buf[tail..head] else buf[tail..] + buf[..head]
  }

  lemma QueuePush(buf: seq<char>, tail: nat, head: nat, c: char)
    requires |buf| == RXBUF_SIZE && tail < RXBUF_SIZE && head < RXBUF_SIZE
    ensures
      var next := (head + 1) % RXBUF_SIZE;
      (next == tail <==> |Queue(buf, tail, head)| == RXBUF_SIZE - 1) &&
      (next != tail ==> Queue(buf[head := c], tail, next) == Queue(buf, tail, head) + [c])
  {
    var next := if head == RXBUF_SIZE - 1 then 0 else head + 1;
    assert next == (head + 1) % RXBUF_SIZE;
    if next != tail {
      QueueGrows(buf, tail, head, next, c);
    }
  }

  lemma QueueGrows(buf: seq<char>, tail: nat, head: nat, next: nat, c: char)
    requires |buf| == RXBUF_SIZE && tail < RXBUF_SIZE && head < RXBUF_SIZE
    requires next == (if head == RXBUF_SIZE - 1 then 0 else head + 1) && next != tail
    ensures Queue(buf[head := c], tail, next) == Queue(buf, tail, head) + [c]
  {
    var after := buf[head := c];
    if tail <= head && next > head {
      assert after[tail..next] == buf[tail..head] + [c];
    } else if tail <= head {
      assert after[tail..] == buf[tail..head] + [c] && after[..0] == [];
    } else {
      assert after[tail..] == buf[tail..] && after[..next] == buf[..head] + [c];
    }
  }

  class Ring {
    const rxBuf: array<char>
    var rxHead: nat
    var rxTail: nat
    var interruptFlag: bool
    var keyFlag: bool

    ghost predicate Valid()
      reads this
    {
      rxBuf.Length == RXBUF_SIZE && rxHead < RXBUF_SIZE && rxTail < RXBUF_SIZE
    }

    ghost function Contents(): (l: Line)
      reads this, rxBuf
      requires Valid()
      ensures |l.queue| < RXBUF_SIZE
    {
      Line(Queue(rxBuf[..], rxTail, rxHead), interruptFlag, keyFlag)
    }

    constructor ()
      ensures Valid() && fresh(rxBuf) && Contents() == Line([], false, false)
    {
      rxBuf := new char[RXBUF_SIZE](_ => '\0');
      rxHead, rxTail, interruptFlag, keyFlag := 0, 0, false, false;
    }

    method Push(c: char)
      requires Valid()
      modifies this, rxBuf
      ensures Valid() && Contents() == Received(old(Contents()), c)
      ensures
        var l := old(Contents());
        Contents() == if c as int == 0 then l
                      else if c as int == 3 then l.(interrupted := true)
                      else l.(keyed := true, queue := if |l.queue| < 63 then l.queue + [c] else l.queue)
    {
      if c == BREAK {
        return;
      }
      if c == INTERRUPT {
        interruptFlag := true;
        return;
      }
      hide Queue;
      QueuePush(rxBuf[..], rxTail, rxHead, c);
      var next := (rxHead + 1) % RXBUF_SIZE;
      if next != rxTail {
        ghost var after := rxBuf[..][rxHead := c];
        rxBuf[rxHead] := c;
        assert rxBuf[..] == after;
        rxHead := next;
      }
      keyFlag := true;
    }

    method RxEmpty() returns (empty: bool)
      requires Valid()
      ensures empty <==> Contents().queue == []
    {
      empty := rxTail == rxHead;
    }

    /** Callers look at RxEmpty first; without a byte waiting, 63 old ones would come back. */
    method RxGet() returns (c: char)
      requires Valid()
      modifies this`rxTail
      ensures Valid() && Contents() == old(Contents()).(queue := Contents().queue)
      ensures old(Contents()).queue != [] ==> old(Contents()).queue == [c] + Contents().queue
      ensures old(Contents()).queue == [] ==> |Contents().queue| == RXBUF_SIZE - 1
    {
      c := rxBuf[rxTail];
      rxTail := (rxTail + 1) % RXBUF_SIZE;
    }

    method Interrupted() returns (yes: bool)
      requires Valid()
      modifies this`interruptFlag
      ensures Valid() && yes == old(interruptFlag) && Contents() == old(Contents()).(interrupted := false)
    {
      yes := interruptFlag;
      if interruptFlag {
        interruptFlag := false;
      }
    }

    method KeyPressed() returns (yes: bool)
      requires Valid()
      modifies this`keyFlag
      ensures Valid() && yes == old(keyFlag) && Contents() == old(Contents()).(keyed := false)
    {
      yes := keyFlag;
      if keyFlag {
        keyFlag := false;
      }
    }
  }

  // ---- Whole runs: pushes and takes in any order

  datatype Event = Pushed(c: char) | Taken

  /** A take with nothing waiting does not happen: the reader asks first. */
  function Next(l: Line, e: Event): Line {
    match e
    case Pushed(c) => Received(l, c)
    case Taken => if l.queue == [] then l else l.(queue := l.queue[1..])
  }

  function After(l: Line, es: seq<Event>): Line
    decreases |es|
  {
    if es == [] then l else After(Next(l, es[0]), es[1..])
  }

  function Delivered(l: Line, es: seq<Event>): seq<char>
    decreases |es|
  {
    if es == [] then []
    else (if es[0].Taken? && l.queue != [] then [l.queue[0]] else []) + Delivered(Next(l, es[0]), es[1..])
  }

  /** The data bytes the other side sent. */
  function Sent(es: seq<Event>): seq<char> {
    if es == [] then [] else (if es[0].Pushed? && IsData(es[0].c) then [es[0].c] else []) + Sent(es[1..])
  }

  /** The data bytes that found room. */
  function Accepted(l: Line, es: seq<Event>): seq<char>
    decreases |es|
  {
    if es == [] then []
    else
      (if es[0].Pushed? && IsData(es[0].c) && !Full(l) then [es[0].c] else []) + Accepted(Next(l, es[0]), es[1..])
  }

  predicate Overrun(l: Line, es: seq<Event>)
    decreases |es|
  {
    es != [] && ((es[0].Pushed? && IsData(es[0].c) && Full(l)) || Overrun(Next(l, es[0]), es[1..]))
  }

  /** First in, first out: what was delivered and what waits is what was there and what was accepted, in order. */
  lemma {:induction false} Fifo(l: Line, es: seq<Event>)
    requires |l.queue| < RXBUF_SIZE
    ensures Delivered(l, es) + After(l, es).queue == l.queue + Accepted(l, es)
    ensures |After(l, es).queue| < RXBUF_SIZE
    decreases |es|
  {
    hide Next, Full, IsData;
    if es == [] {
      assert [] + l.queue == l.queue + [];
    } else {
      var l' := Next(l, es[0]);
      var out := if es[0].Taken? && l.queue != [] then [l.queue[0]] else [];
      var took := if es[0].Pushed? && IsData(es[0].c) && !Full(l) then [es[0].c] else [];
      OneEvent(l, es[0], out, took);
      Fifo(l', es[1..]);
      var d, w, a := Delivered(l', es[1..]), After(l', es[1..]).queue, Accepted(l', es[1..]);
      assert Delivered(l, es) == out + d && Accepted(l, es) == took + a;
      hide Delivered, Accepted, After;
      Grow(out, d, w, l'.queue, a);
      assert (out + l'.queue) + a == (l.queue + took) + a == l.queue + (took + a);
    }
  }

  /** One event: what comes out and what stays is what was there and what came in. */
  lemma OneEvent(l: Line, e: Event, out: seq<char>, took: seq<char>)
    requires |l.queue| < RXBUF_SIZE
    requires out == if e.Taken? && l.queue != [] then [l.queue[0]] else []
    requires took == if e.Pushed? && IsData(e.c) && !Full(l) then [e.c] else []
    ensures out + Next(l, e).queue == l.queue + took && |Next(l, e).queue| < RXBUF_SIZE
  {
  }

  lemma Grow(x: seq<char>, d: seq<char>, w: seq<char>, q: seq<char>, a: seq<char>)
    requires d + w == q + a
    ensures (x + d) + w == (x + q) + a
  {
    assert (x + d) + w == x + (d + w);
    assert (x + q) + a == x + (q + a);
  }

  /** Nothing sent is lost exactly when no byte ever met a full ring. */
  lemma {:induction false} LosslessIff(l: Line, es: seq<Event>)
    ensures |Accepted(l, es)| <= |Sent(es)|
    ensures Accepted(l, es) == Sent(es) <==> !Overrun(l, es)
    decreases |es|
  {
    if es != [] {
      LosslessIff(Next(l, es[0]), es[1..]);
      var a, s := Accepted(Next(l, es[0]), es[1..]), Sent(es[1..]);
      if es[0].Pushed? && IsData(es[0].c) && !Full(l) {
        assert ([es[0].c] + a)[1..] == a && ([es[0].c] + s)[1..] == s;
      } else if es[0].Pushed? && IsData(es[0].c) {
        assert |Accepted(l, es)| == |a| < |Sent(es)|;
      } else {
        assert Accepted(l, es) == a && Sent(es) == s;
      }
    }
  }
}
