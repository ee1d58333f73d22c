/** The queue of a camera stream (include/NXQueue.h) and the stream that moves buffers between it and the window
    (camera/NXStream.cpp). */
module NxStream {
  import opened Options

  function Reversed<T>(s: seq<T>): (r: seq<T>)
    ensures |r| == |s|
  {
    if s == [] then [] else Reversed(s[1..]) + [s[0]]
  }

  lemma {:induction false} ReversedAt<T>(s: seq<T>, k: nat)
    requires k < |s|
    ensures Reversed(s)[k] == s[|s| - 1 - k]
  {
    if k < |s| - 1 {
      ReversedAt(s[1..], k);
    }
  }

  lemma {:induction false} ReversedFirst<T>(s: seq<T>)
    requires s != []
    ensures Reversed(s) == [s[|s| - 1]] + Reversed(s[..|s| - 1])
  {
    if |s| > 1 {
      var t, front := s[1..], s[..|s| - 1];
      ReversedFirst(t);
      assert front[1..] == t[..|t| - 1];
    }
  }

  /** A vector pushed at the front and popped at the back: Contents gives it oldest first. */
  class NXQueue<T> {
    var vector: seq<T>

    function Contents(): (s: seq<T>)
      reads this
      ensures |s| == |vector|
    {
      Reversed(vector)
    }

    constructor ()
      ensures Contents() == []
    {
      vector := [];
    }

    method Queue(item: T)
      modifies this
      ensures Contents() == old(Contents()) + [item]
    {
      vector := [item] + vector;
    }

    method Dequeue() returns (item: T)
      requires Contents() != []
      modifies this
      ensures item == old(Contents())[0] && Contents() == old(Contents())[1..]
    {
      ReversedFirst(vector);
      item := vector[|vector| - 1];
      vector := vector[..|vector| - 1];
    }

    method GetHead() returns (item: T)
      requires Contents() != []
      ensures item == Contents()[0]
    {
      ReversedFirst(vector);
      item := vector[|vector| - 1];
    }

    method IsEmpty() returns (empty: bool)
      ensures empty <==> Contents() == []
    {
      empty := vector == [];
    }

    method Size() returns (n: nat)
      ensures n == |Contents()|
    {
      n := |vector|;
    }

    /** Items are numbered from the newest. */
    method GetItem(index: nat) returns (item: T)
      requires index < |Contents()|
      ensures item == Contents()[|Contents()| - 1 - index]
    {
      ReversedAt(vector, |vector| - 1 - index);
      item := vector[index];
    }
  }

  type Buffer = nat

  datatype Status = NO_ERROR | BAD_VALUE | WINDOW_ERROR

  /** The window that owns the buffers. It may refuse any request, and chooses freely what it hands out of those that
      it holds. */
  class Window {
    var held: set<Buffer>
    var published: seq<Buffer>

    method DequeueBuffer(offer: Option<Buffer>) returns (status: Status, buffer: Buffer)
      modifies this
      ensures published == old(published)
      ensures status == NO_ERROR <==> Offers(offer, old(held))
      ensures status == NO_ERROR ==> buffer == offer.value
      ensures held == if status == NO_ERROR then old(held) - {offer.value} else old(held)
    {
      status, buffer := WINDOW_ERROR, *;
      if Offers(offer, held) {
        buffer := offer.value;
        held := held - {buffer};
        status := NO_ERROR;
      }
    }

    method EnqueueBuffer(buffer: Buffer, willing: bool) returns (status: Status)
      modifies this
      ensures status == if willing then NO_ERROR else WINDOW_ERROR
      ensures held == if willing then old(held) + {buffer} else old(held)
      ensures published == if willing then old(published) + [buffer] else old(published)
    {
      status := WINDOW_ERROR;
      if willing {
        held, published := held + {buffer}, published + [buffer];
        status := NO_ERROR;
      }
    }

    method CancelBuffer(buffer: Buffer) returns (status: Status)
      modifies this
      ensures held == old(held) + {buffer} && published == old(published)
    {
      held := held + {buffer};
      status := *;
    }
  }

  predicate Offers(offer: Option<Buffer>, held: set<Buffer>) {
    offer.Some? && offer.value in held
  }

  function Elements<T>(s: seq<T>): set<T> {
    set x | x in s
  }

  /** These were taken in this order, each of them registered and still with the window. */
  ghost predicate TakenInTurn(
    got: seq<Buffer>, offers: nat -> Option<Buffer>, held: set<Buffer>, buffers: seq<Buffer>)
  {
    forall i: nat | i < |got| ::
      offers(i) == Some(got[i]) && got[i] in held && got[i] !in got[..i] && got[i] in buffers
  }

  lemma TakenNext(
    got: seq<Buffer>, buffer: Buffer, offers: nat -> Option<Buffer>, held: set<Buffer>, buffers: seq<Buffer>)
    requires TakenInTurn(got, offers, held, buffers) && offers(|got|) == Some(buffer)
    requires buffer in held - Elements(got) && buffer in buffers
    ensures TakenInTurn(got + [buffer], offers, held, buffers)
    ensures Elements(got + [buffer]) == Elements(got) + {buffer}
  {
    var more := got + [buffer];
    assert more[..|got|] == got;
    assert forall i: nat | i < |got| :: more[..i] == got[..i];
  }

  /** So many of the window's offers at most went into the queue, in order, up to the first one that was no offer or not
      registered. */
  ghost predicate Filled(
    before: seq<Buffer>, after: seq<Buffer>, held: set<Buffer>, buffers: seq<Buffer>, max: nat,
    offers: nat -> Option<Buffer>)
  {
    && before <= after
    && var got := after[|before|..];
       && |got| <= max && TakenInTurn(got, offers, held, buffers)
       && (|got| < max ==> !(Offers(offers(|got|), held - Elements(got)) && offers(|got|).value in buffers))
  }

  /** The queue once initBuffer has been called. */
  ghost predicate Stocked(
    inited: bool, before: seq<Buffer>, after: seq<Buffer>, held: set<Buffer>, buffers: seq<Buffer>, max: nat,
    offers: nat -> Option<Buffer>)
  {
    if inited then after == before else Filled(before, after, held, buffers, max, offers)
  }

  /** What the window offers determines the queue. */
  lemma StockedOnce(
    inited: bool, before: seq<Buffer>, x: seq<Buffer>, y: seq<Buffer>, held: set<Buffer>, buffers: seq<Buffer>,
    max: nat, offers: nat -> Option<Buffer>)
    requires Stocked(inited, before, x, held, buffers, max, offers)
    requires Stocked(inited, before, y, held, buffers, max, offers)
    ensures x == y
  {
    if !inited {
      var n := |before|;
      TakenGrows(x[n..], y[n..], held, buffers, offers);
      TakenGrows(y[n..], x[n..], held, buffers, offers);
      assert |x| == |y|;
      forall i | 0 <= i < |x| ensures x[i] == y[i] {
        if i >= n {
          assert x[i] == x[n..][i - n] && y[i] == y[n..][i - n];
        }
      }
    }
  }

  lemma TakenGrows(
    got: seq<Buffer>, more: seq<Buffer>, held: set<Buffer>, buffers: seq<Buffer>, offers: nat -> Option<Buffer>)
    requires TakenInTurn(got, offers, held, buffers) && TakenInTurn(more, offers, held, buffers)
    ensures |got| < |more| ==> Offers(offers(|got|), held - Elements(got)) && offers(|got|).value in buffers
  {
    if |got| < |more| {
      assert forall i: nat | i < |got| :: got[i] == more[i];
      assert got == more[..|got|];
    }
  }

  lemma NoneTaken(offers: nat -> Option<Buffer>, held: set<Buffer>, buffers: seq<Buffer>)
    ensures TakenInTurn([], offers, held, buffers) && held - Elements([]) == held
  {
  }

  ghost predicate Distinct<T>(s: seq<T>) {
    forall i, j | 0 <= i < j < |s| :: s[i] != s[j]
  }

  /** Every buffer is with the window, or exactly once in the queue, or was dropped. */
  ghost predicate Apart(all: set<Buffer>, held: set<Buffer>, queued: seq<Buffer>, dropped: set<Buffer>) {
    Distinct(queued) && held !! Elements(queued) !! dropped && held + Elements(queued) + dropped == all
  }

  lemma TakeHead(all: set<Buffer>, held: set<Buffer>, queued: seq<Buffer>, dropped: set<Buffer>)
    requires Apart(all, held, queued, dropped) && queued != []
    ensures Apart(all, held + {queued[0]}, queued[1..], dropped)
    ensures Apart(all, held, queued[1..], dropped + {queued[0]})
  {
    assert queued == [queued[0]] + queued[1..];
    assert Elements(queued) == {queued[0]} + Elements(queued[1..]);
    assert queued[0] !in queued[1..];
  }

  lemma PutTail(all: set<Buffer>, held: set<Buffer>, queued: seq<Buffer>, dropped: set<Buffer>, buffer: Buffer)
    requires Apart(all, held, queued, dropped) && buffer in held
    ensures Apart(all, held - {buffer}, queued + [buffer], dropped)
    ensures Apart(all, held - {buffer}, queued, dropped + {buffer})
  {
    assert buffer !in Elements(queued);
    assert Elements(queued + [buffer]) == Elements(queued) + {buffer};
  }

  class NXStream {
    const window: Window
    const queue: NXQueue<Buffer>
    const maxBuffers: nat
    var buffers: seq<Buffer>
    var bufferInited: bool
    var lastEnqueuedBuffer: Option<Buffer>
    ghost var dropped: set<Buffer>

    ghost predicate Conserved(all: set<Buffer>)
      reads this, window, queue
    {
      Apart(all, window.held, queue.Contents(), dropped)
    }

    /** Only a buffer that is not registered is ever dropped. */
    twostate predicate DropsUnregistered()
      reads this
    {
      old(dropped) <= dropped && forall b | b in dropped - old(dropped) :: b !in buffers
    }

    constructor (window: Window, maxBuffers: nat)
      ensures this.window == window && this.maxBuffers == maxBuffers && fresh(queue)
      ensures queue.Contents() == [] && buffers == [] && !bufferInited && dropped == {}
      ensures Conserved(window.held)
    {
      this.window, this.maxBuffers := window, maxBuffers;
      queue := new NXQueue();
      buffers, bufferInited, lastEnqueuedBuffer, dropped := [], false, None, {};
    }

    method RegisterBuffer(handles: seq<Buffer>)
      modifies this
      ensures buffers == handles && lastEnqueuedBuffer == None
      ensures bufferInited == old(bufferInited) && dropped == old(dropped)
    {
      buffers := handles;
      lastEnqueuedBuffer := None;
    }

    method FindBufferIndex(buffer: Buffer) returns (index: int)
      ensures index >= 0 <==> buffer in buffers
      ensures index >= 0 ==> index < |buffers| && buffers[index] == buffer && buffer !in buffers[..index]
    {
      for i := 0 to |buffers|
        invariant buffer !in buffers[..i]
      {
        if buffers[i] == buffer {
          return i;
        }
      }
      return -1;
    }

    method DequeueBuffer(ghost all: set<Buffer>, offer: Option<Buffer>) returns (status: Status, buffer: Buffer)
      requires Conserved(all)
      modifies this, window, queue
      ensures Conserved(all) && DropsUnregistered()
      ensures buffers == old(buffers) && bufferInited == old(bufferInited)
      ensures window.published == old(window.published) && status != WINDOW_ERROR
      ensures status == NO_ERROR <==> Offers(offer, old(window.held)) && offer.value in buffers
      ensures status == NO_ERROR ==> buffer == offer.value
      ensures queue.Contents() == old(queue.Contents()) + if status == NO_ERROR then [offer.value] else []
      ensures window.held == old(window.held) - if Offers(offer, old(window.held)) then {offer.value} else {}
      ensures status == NO_ERROR ==> dropped == old(dropped)
    {
      hide Apart;
      ghost var held, queued := window.held, queue.Contents();
      status, buffer := window.DequeueBuffer(offer);
      if status == NO_ERROR {
        PutTail(all, held, queued, dropped, buffer);
      }
      if status == NO_ERROR {
        var index := FindBufferIndex(buffer);
        if index >= 0 {
          queue.Queue(buffer);
          return;
        }
        dropped := dropped + {buffer};
      }
      status := BAD_VALUE;
    }

    method InitBuffer(ghost all: set<Buffer>, offers: nat -> Option<Buffer>)
      requires Conserved(all)
      modifies this, window, queue
      ensures Conserved(all) && DropsUnregistered()
      ensures buffers == old(buffers) && bufferInited && window.published == old(window.published)
      ensures
        Stocked(old(bufferInited), old(queue.Contents()), queue.Contents(), old(window.held), buffers, maxBuffers,
                offers)
    {
      hide Apart, TakenInTurn, Elements;
      ghost var before, held := queue.Contents(), window.held;
      if !bufferInited {
        ghost var got: seq<Buffer> := [];
        NoneTaken(offers, held, buffers);
        for i := 0 to maxBuffers
          invariant Conserved(all) && DropsUnregistered()
          invariant buffers == old(buffers) && window.published == old(window.published)
          invariant |got| == i && queue.Contents() == before + got && window.held == held - Elements(got)
          invariant TakenInTurn(got, offers, held, buffers)
        {
          var status, buffer := DequeueBuffer(all, offers(i));
          if status != NO_ERROR {
            break;
          }
          TakenNext(got, buffer, offers, held, buffers);
          got := got + [buffer];
        }
        assert queue.Contents()[|before|..] == got;
        bufferInited := true;
      }
    }

    /** The oldest buffer goes to the window; a window that refuses it gets it back by cancel. */
    method EnqueueBuffer(ghost all: set<Buffer>, willing: bool) returns (status: Status)
      requires Conserved(all)
      modifies this, window, queue
      ensures Conserved(all) && DropsUnregistered()
      ensures buffers == old(buffers) && bufferInited == old(bufferInited)
      ensures old(queue.Contents()) == [] ==>
        && status == NO_ERROR && queue.Contents() == [] && window.published == old(window.published)
        && window.held == old(window.held)
      ensures old(queue.Contents()) != [] ==>
        var head := old(queue.Contents())[0];
        && queue.Contents() == old(queue.Contents())[1..]
        && (status == NO_ERROR <==> head in buffers && willing)
        && lastEnqueuedBuffer == (if head in buffers then Some(head) else old(lastEnqueuedBuffer))
        && window.held == old(window.held) + (if head in buffers then {head} else {})
        && window.published == old(window.published) + if status == NO_ERROR then [head] else []
    {
      var empty := queue.IsEmpty();
      if empty {
        return NO_ERROR;
      }
      hide Apart;
      TakeHead(all, window.held, queue.Contents(), dropped);
      var buffer := queue.Dequeue();
      var index := FindBufferIndex(buffer);
      if index >= 0 {
        lastEnqueuedBuffer := Some(buffer);
        status := window.EnqueueBuffer(buffer, willing);
        if status != NO_ERROR {
          var _ := window.CancelBuffer(buffer);
        }
      } else {
        dropped := dropped + {buffer};
        status := BAD_VALUE;
      }
    }

    method CancelBuffer(ghost all: set<Buffer>) returns (status: Status)
      requires Conserved(all)
      modifies this, window, queue
      ensures Conserved(all) && DropsUnregistered()
      ensures buffers == old(buffers) && bufferInited == old(bufferInited)
      ensures window.published == old(window.published)
      ensures old(queue.Contents()) == [] ==> queue.Contents() == [] && window.held == old(window.held)
      ensures old(queue.Contents()) != [] ==>
        var head := old(queue.Contents())[0];
        && queue.Contents() == old(queue.Contents())[1..]
        && window.held == old(window.held) + (if head in buffers then {head} else {})
    {
      var empty := queue.IsEmpty();
      if empty {
        return NO_ERROR;
      }
      hide Apart;
      TakeHead(all, window.held, queue.Contents(), dropped);
      var buffer := queue.Dequeue();
      var index := FindBufferIndex(buffer);
      if index >= 0 {
        status := window.CancelBuffer(buffer);
      } else {
        dropped := dropped + {buffer};
        status := NO_ERROR;
      }
    }

    method FlushBuffer(ghost all: set<Buffer>)
      requires Conserved(all)
      modifies this, window, queue
      ensures Conserved(all) && queue.Contents() == [] && !bufferInited
      ensures window.held == old(window.held) + Elements(old(queue.Contents())) && dropped == old(dropped)
      ensures buffers == old(buffers) && window.published == old(window.published)
    {
      hide Apart;
      var empty := queue.IsEmpty();
      while !empty
        invariant Conserved(all) && dropped == old(dropped) && buffers == old(buffers)
        invariant window.published == old(window.published)
        invariant window.held + Elements(queue.Contents()) == old(window.held) + Elements(old(queue.Contents()))
        invariant empty <==> queue.Contents() == []
        decreases |queue.Contents()|
      {
        TakeHead(all, window.held, queue.Contents(), dropped);
        assert Elements(queue.Contents()) == {queue.Contents()[0]} + Elements(queue.Contents()[1..]);
        var buffer := queue.Dequeue();
        var _ := window.CancelBuffer(buffer);
        empty := queue.IsEmpty();
      }
      bufferInited := false;
    }
  }
}
