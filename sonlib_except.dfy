/**
 * The exception / error-chain subsystem of sonLib (impl/sonLibExcept.c).
 *
 * An exception record carries a symbolic id, an owned message and an optional
 * owned cause; following `cause` links gives the cause chain. Records are
 * allocated by the constructors, released (whole chain at once) by `Free`,
 * and delivered by `Throw` to the innermost protected region, or reported as
 * a fatal error when there is none.
 */
module SonLibExcept {

  /** A block handed back to the allocator: the formatted message owned by an
      exception record, or the record itself. */
  datatype Block = MsgBlock(owner: Except) | RecordBlock(owner: Except)

  /** How a throw ends. There is no variant for a normal return: a throw
      never comes back to its caller. */
  datatype ThrowOutcome =
    | Fatal(id: string, msg: string)       // no enclosing context: the id and message are reported and the process stops
    | Jumped(target: Context, code: int)   // non-local jump to the resumption point saved in `target`

  /** The value the resumption point's setjmp sees after a throw. */
  const JumpCode: int := 1

  /** An exception record. Its fields are set once, when it is built, and
      never change afterwards. */
  class Except {
    const id: string
    const msg: string
    const cause: Except?
    /** The records below this one: cause, cause of cause, ..., the root cause. */
    ghost const Causes: seq<Except>

    /** The chain is the sequence of cause links, and it does not come back
        to this record (so it is acyclic and finite). */
    ghost predicate Valid()
      decreases |Causes|
    {
      if cause == null then
        Causes == []
      else
        && |Causes| > 0 && Causes[0] == cause && Causes[1..] == cause.Causes
        && this != cause && this !in cause.Causes
        && cause.Valid()
    }

    /** This record followed by all its causes. */
    ghost function Chain(): seq<Except>
    {
      [this] + Causes
    }

    /** Lays out a record: the common body of every constructor of the C file. */
    constructor Init(id: string, msg: string, cause: Except?)
      requires cause != null ==> cause.Valid()
      ensures Valid()
      ensures this.id == id && this.msg == msg && this.cause == cause
      ensures Causes == if cause == null then [] else cause.Chain()
    {
      this.id := id;
      this.msg := msg;
      this.cause := cause;
      Causes := if cause == null then [] else cause.Chain();
    }

    /** stExcept_getId: the id this record was built with. */
    function GetId(): (r: string)
      ensures r == id
    {
      id
    }

    /** stExcept_getMsg: the message this record was built with. */
    function GetMsg(): (r: string)
      ensures r == msg
    {
      msg
    }

    /** stExcept_getCause: the next record of the chain, which stays owned by
        this one (it is still part of this record's chain). */
    function GetCause(): (c: Except?)
      requires Valid()
      ensures c == cause
      ensures c == null <==> Causes == []
      ensures c != null ==> c.Valid() && c.Chain() == Causes && c in Chain()
    {
      cause
    }

    /** The number of records in the chain, found by walking the cause links. */
    function ChainLength(): (n: nat)
      requires Valid()
      ensures n == |Chain()| == |Causes| + 1
      decreases |Causes|
    {
      if cause == null then 1 else 1 + cause.ChainLength()
    }
  }

  /** The records reachable from `e`, `e` included; none for a null pointer. */
  ghost function Nodes(e: Except?): set<Except>
  {
    if e == null then {} else set x | x in e.Chain()
  }

  /** Every record of a chain is itself a valid record whose chain is the
      corresponding suffix, consecutive records are linked by `cause`, and the
      last one has no cause. */
  lemma {:induction false} ChainLinks(e: Except)
    requires e.Valid()
    ensures forall k :: 0 <= k < |e.Chain()| ==> e.Chain()[k].Valid() && e.Chain()[k].Chain() == e.Chain()[k..]
    ensures forall k :: 0 <= k < |e.Chain()| - 1 ==> e.Chain()[k].cause == e.Chain()[k + 1]
    ensures e.Chain()[|e.Chain()| - 1].cause == null
    decreases |e.Causes|
  {
    if e.cause != null {
      ChainLinks(e.cause);
      var c := e.Chain();
      assert c[1..] == e.cause.Chain();
      forall k | 1 <= k < |c|
        ensures c[k].Valid() && c[k].Chain() == c[k..]
      {
        assert c[k] == e.cause.Chain()[k - 1];
        assert c[k..] == e.cause.Chain()[k - 1..];
      }
      forall k | 1 <= k < |c| - 1
        ensures c[k].cause == c[k + 1]
      {
        assert c[k] == e.cause.Chain()[k - 1] && c[k + 1] == e.cause.Chain()[k];
      }
    }
  }

  /** A chain never visits the same record twice. */
  lemma {:induction false} ChainDistinct(e: Except)
    requires e.Valid()
    ensures forall i, j :: 0 <= i < j < |e.Chain()| ==> e.Chain()[i] != e.Chain()[j]
    decreases |e.Causes|
  {
    if e.cause != null {
      ChainDistinct(e.cause);
      var c := e.Chain();
      assert c[1..] == e.cause.Chain();
      forall i, j | 0 <= i < j < |c|
        ensures c[i] != c[j]
      {
        assert c[j] == e.cause.Chain()[j - 1];
        if i > 0 {
          assert c[i] == e.cause.Chain()[i - 1];
        }
      }
    }
  }

  /** The blocks stExcept_free releases, in the order it releases them: the
      whole cause chain first, then this record's message, then the record. */
  ghost function FreeOrder(e: Except?): seq<Block>
    requires e != null ==> e.Valid()
    decreases if e == null then 0 else |e.Causes| + 1
  {
    if e == null then [] else FreeOrder(e.cause) + [MsgBlock(e), RecordBlock(e)]
  }

  /** Freeing nothing releases nothing; freeing a record with N causes
      releases 2 * (N + 1) blocks. */
  lemma {:induction false} FreeOrderLength(e: Except?)
    requires e != null ==> e.Valid()
    ensures e == null ==> FreeOrder(e) == []
    ensures e != null ==> |FreeOrder(e)| == 2 * e.ChainLength()
    decreases if e == null then 0 else |e.Causes| + 1
  {
    if e != null {
      FreeOrderLength(e.cause);
    }
  }

  /** Closed form of the release order: the records go root cause first,
      each one's message just before the record itself. */
  lemma {:induction false} FreeOrderAt(e: Except, i: nat)
    requires e.Valid() && i < |e.Chain()|
    ensures |FreeOrder(e)| == 2 * |e.Chain()|
    ensures FreeOrder(e)[2 * i] == MsgBlock(e.Chain()[|e.Chain()| - 1 - i])
    ensures FreeOrder(e)[2 * i + 1] == RecordBlock(e.Chain()[|e.Chain()| - 1 - i])
    decreases |e.Causes|
  {
    FreeOrderLength(e);
    var n := |e.Chain()|;
    if i < n - 1 {
      var c := e.cause;
      FreeOrderAt(c, i);
      assert e.Chain()[n - 1 - i] == c.Chain()[n - 2 - i];
    }
  }

  /** Freeing releases the message and the record of every node of the chain
      exactly once, and nothing else. */
  lemma {:induction false} FreeOrderExactlyOnce(e: Except?, x: Except)
    requires e != null ==> e.Valid()
    ensures multiset(FreeOrder(e))[MsgBlock(x)] == if x in Nodes(e) then 1 else 0
    ensures multiset(FreeOrder(e))[RecordBlock(x)] == if x in Nodes(e) then 1 else 0
    ensures forall b :: b in FreeOrder(e) ==> b.owner in Nodes(e)
    decreases if e == null then 0 else |e.Causes| + 1
  {
    if e != null {
      FreeOrderExactlyOnce(e.cause, x);
      FreeOrderExactlyOnce(e.cause, e);
      assert Nodes(e) == {e} + Nodes(e.cause);
      assert e !in Nodes(e.cause);
    }
  }

  /** A protected region's marker: the slot a throw stores the exception in.
      (The saved resumption point is the `target` of `Jumped`.) */
  class Context {
    var except: Except?

    constructor ()
      ensures except == null
    {
      except := null;
    }
  }

  /** The process-wide state the file works on: `_cexceptTOS`, the innermost
      protected region (null when there is none), and the allocator's view
      of the exception records: those allocated and not yet released, and
      the log of released blocks. */
  class Runtime {
    var tos: Context?
    ghost var live: set<Except>
    ghost var released: seq<Block>

    /** At start-up there is no protected region and no record. */
    constructor ()
      ensures tos == null && live == {} && released == []
    {
      tos := null;
      live := {};
      released := [];
    }

    /** stExcept_new / stExcept_newv: a fresh record with the given id and
        (already formatted) message, and no cause. */
    method New(id: string, msg: string) returns (e: Except)
      modifies this`live
      ensures fresh(e) && e.Valid()
      ensures e.GetId() == id && e.GetMsg() == msg && e.GetCause() == null
      ensures e.ChainLength() == 1 && Nodes(e) == {e}
      ensures live == old(live) + {e}
    {
      e := new Except.Init(id, msg, null);
      live := live + {e};
    }

    /** stExcept_newCause / stExcept_newCausev: a fresh record that takes
        ownership of `cause` (which may be null). */
    method NewCause(cause: Except?, id: string, msg: string) returns (e: Except)
      requires cause != null ==> cause.Valid()
      modifies this`live
      ensures fresh(e) && e.Valid()
      ensures e.GetId() == id && e.GetMsg() == msg && e.GetCause() == cause
      ensures e.ChainLength() == if cause == null then 1 else cause.ChainLength() + 1
      ensures Nodes(e) == {e} + Nodes(cause)
      ensures live == old(live) + {e}
    {
      e := new Except.Init(id, msg, cause);
      live := live + {e};
    }

    /** stExcept_free: releases `e` and its whole cause chain; a no-op on
        null. Every record released must still be allocated. */
    method Free(e: Except?)
      requires e != null ==> e.Valid() && Nodes(e) <= live
      modifies this`live, this`released
      ensures live == old(live) - Nodes(e)
      ensures released == old(released) + FreeOrder(e)
      decreases if e == null then 0 else |e.Causes| + 1
    {
      if e != null {
        if e.cause != null {
          Free(e.cause);
        }
        released := released + [MsgBlock(e)];
        released := released + [RecordBlock(e)];
        live := live - {e};
        assert Nodes(e) == {e} + Nodes(e.cause);
      }
    }

    /** stThrow: with no protected region the throw is fatal and reports the
        exception's id and message; otherwise the exception is stored in the
        innermost region's slot and control jumps to that region. */
    method Throw(e: Except) returns (outcome: ThrowOutcome)
      modifies tos
      ensures old(tos) == null ==> outcome == Fatal(e.id, e.msg)
      ensures old(tos) != null ==> outcome == Jumped(old(tos), JumpCode) && old(tos).except == e
    {
      if tos == null {
        outcome := Fatal(e.id, e.msg);
        return;
      }
      tos.except := e;
      outcome := Jumped(tos, JumpCode);
    }

    /** stThrowNew: New followed by Throw. `thrown` names the record built. */
    method ThrowNew(id: string, msg: string) returns (outcome: ThrowOutcome, ghost thrown: Except)
      modifies this`live, tos
      ensures fresh(thrown) && thrown.Valid()
      ensures thrown.GetId() == id && thrown.GetMsg() == msg && thrown.GetCause() == null
      ensures live == old(live) + {thrown}
      ensures old(tos) == null ==> outcome == Fatal(id, msg)
      ensures old(tos) != null ==> outcome == Jumped(old(tos), JumpCode) && old(tos).except == thrown
    {
      var e := New(id, msg);
      thrown := e;
      outcome := Throw(e);
    }

    /** stThrowNewCause: NewCause followed by Throw. */
    method ThrowNewCause(cause: Except?, id: string, msg: string) returns (outcome: ThrowOutcome, ghost thrown: Except)
      requires cause != null ==> cause.Valid()
      modifies this`live, tos
      ensures fresh(thrown) && thrown.Valid()
      ensures thrown.GetId() == id && thrown.GetMsg() == msg && thrown.GetCause() == cause
      ensures Nodes(thrown) == {thrown} + Nodes(cause)
      ensures live == old(live) + {thrown}
      ensures old(tos) == null ==> outcome == Fatal(id, msg)
      ensures old(tos) != null ==> outcome == Jumped(old(tos), JumpCode) && old(tos).except == thrown
    {
      var e := NewCause(cause, id, msg);
      thrown := e;
      outcome := Throw(e);
    }
  }
}
