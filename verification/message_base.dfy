/**
 * The engine message envelope: a message takes one id from the shared
 * counter when it is built, keeps an ordered list of response callbacks, and
 * hands every accepted response to each of them in registration order.
 */
module MessageBase {
  import opened Wrappers
  import opened MessageIds
  import opened ResponseDispatch
  import opened MessageText

  class Message {
    /** The runtime type name of the concrete message class. */
    const typeName: string
    /** Assigned once, at construction; never changes afterwards. */
    const id: int32
    var callbacks: seq<Callback>

    /** Builds a message: an empty callback list, then the next id from `counter`. */
    constructor (typeName: string, counter: IdCounter)
      requires counter.Valid()
      modifies counter
      ensures counter.Valid()
      ensures counter.Issued == old(counter.Issued) + [id]
      ensures id == Successor(old(counter.count))
      ensures this.typeName == typeName && callbacks == []
    {
      this.typeName := typeName;
      callbacks := [];
      var next := counter.NextId();
      id := next;
    }

    /** Registers `c` after every earlier callback and returns this same message for chaining. */
    method OnResponse(c: Callback) returns (self: Message)
      modifies this
      ensures self == this
      ensures callbacks == old(callbacks) + [c]
    {
      callbacks := callbacks + [c];
      self := this;
    }

    /** Registers `handler` behind a wrapper that passes on only responses of `kind`. */
    method OnResponseWith(kind: Kind, handler: string) returns (self: Message)
      modifies this
      ensures self == this
      ensures callbacks == old(callbacks) + [Callback(handler, Some(kind))]
    {
      self := OnResponse(Callback(handler, Some(kind)));
    }

    /**
     * Invokes every registered callback with `r`, in registration order, and
     * returns the invocations made.  It changes neither the callbacks nor the id.
     */
    method AcceptResponse(r: Response) returns (trace: seq<Delivery>)
      ensures trace == Dispatch(callbacks, r)
    {
      trace := [];
      for i := 0 to |callbacks|
        invariant |trace| == i
        invariant forall j :: 0 <= j < i ==> trace[j] == Delivery(callbacks[j], r)
      {
        trace := trace + [Delivery(callbacks[i], r)];
      }
    }

    /** The diagnostic text `MessageBase(type="<typeName>", id=<id>)`. */
    function ToString(): (s: string)
      ensures |s| > |DESCRIPTION_HEAD| + |typeName|
      ensures s[..|DESCRIPTION_HEAD|] == DESCRIPTION_HEAD
      ensures s[|DESCRIPTION_HEAD|..|DESCRIPTION_HEAD| + |typeName|] == typeName
      ensures s[|DESCRIPTION_HEAD| + |typeName|..] == ID_LABEL + IntText(id as int) + ")"
      ensures IdOfDescription(s) == Some(id as int)
    {
      Description(typeName, id as int)
    }
  }

  /**
   * Three messages built in turn from a fresh counter get the ids 0, 1 and 2;
   * a callback registered on the second one receives an accepted response
   * exactly once, and its text carries id 1.
   */
  method ThreeMessages(x: Response) returns (ids: seq<int32>, log: seq<Delivery>, text: string)
    ensures ids == [0, 1, 2]
    ensures log == [Delivery(Callback("got", None), x)]
    ensures IdOfDescription(text) == Some(1)
  {
    var counter := new IdCounter();
    var m0 := new Message("Request", counter);
    var m1 := new Message("Request", counter);
    var m2 := new Message("Request", counter);
    var same := m1.OnResponse(Callback("got", None));
    log := same.AcceptResponse(x);
    ids := [m0.id, m1.id, m2.id];
    text := m1.ToString();
  }
}
