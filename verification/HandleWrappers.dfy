/** cppzmq/zmq.hpp, the code: the wrapper classes on the heap, and programs that use any number of them.
    Each operation does to the heap what its step does in the protocol, so every run of a program is a run
    of the protocol. */
module HandleWrappers {
  import opened HandleLedgers

  /** The library's side: which handles it has given out and which have been returned to it. */
  class Library {
    var issued: nat
    var closed: seq<Handle>

    constructor ()
      ensures issued == 0 && closed == []
    {
      issued, closed := 0, [];
    }

    ghost predicate IsOpen(h: Handle)
      reads this
    {
      h < issued && h !in closed
    }

    method Open() returns (h: Handle)
      modifies this
      ensures h == old(issued) && issued == old(issued) + 1 && closed == old(closed)
    {
      h := issued;
      issued := issued + 1;
    }

    /** Closing what is not open is an error in the caller. */
    method Close(h: Handle)
      requires IsOpen(h)
      modifies this
      ensures closed == old(closed) + [h] && issued == old(issued)
    {
      closed := closed + [h];
    }
  }

  /** `context_t` and `socket_t` treat their handle alike. */
  class PointerWrapper {
    var ptr: Option<Handle>

    constructor Open(lib: Library)
      modifies lib
      ensures ptr == Some(old(lib.issued))
      ensures lib.issued == old(lib.issued) + 1 && lib.closed == old(lib.closed)
    {
      var h := lib.Open();
      ptr := Some(h);
    }

    constructor Move(rhs: PointerWrapper)
      modifies rhs
      ensures ptr == old(rhs.ptr) && rhs.ptr == None
    {
      ptr := rhs.ptr;
      new;
      rhs.ptr := None;
    }

    method Assign(rhs: PointerWrapper)
      modifies this, rhs
      ensures ptr == old(rhs.ptr) && rhs.ptr == old(ptr)
    {
      var tmp := ptr;
      ptr := rhs.ptr;
      rhs.ptr := tmp;
    }

    /** Also the destructor. */
    method Close(lib: Library)
      requires ptr.Some? ==> lib.IsOpen(ptr.value)
      modifies this, lib
      ensures ptr == None && lib.issued == old(lib.issued)
      ensures lib.closed == old(lib.closed) + match old(ptr) case None => [] case Some(h) => [h]
    {
      if ptr == None {
        return;
      }
      lib.Close(ptr.value);
      ptr := None;
    }
  }

  class MessageWrapper {
    var msg: Handle

    constructor Init(lib: Library)
      modifies lib
      ensures msg == old(lib.issued)
      ensures lib.issued == old(lib.issued) + 1 && lib.closed == old(lib.closed)
    {
      var h := lib.Open();
      msg := h;
    }

    /** The source of the move is initialised afresh. */
    constructor Move(rhs: MessageWrapper, lib: Library)
      modifies rhs, lib
      ensures msg == old(rhs.msg) && rhs.msg == old(lib.issued)
      ensures lib.issued == old(lib.issued) + 1 && lib.closed == old(lib.closed)
    {
      msg := rhs.msg;
      new;
      var h := lib.Open();
      rhs.msg := h;
    }

    method Assign(rhs: MessageWrapper)
      modifies this, rhs
      ensures msg == old(rhs.msg) && rhs.msg == old(msg)
    {
      var tmp := msg;
      msg := rhs.msg;
      rhs.msg := tmp;
    }

    method Rebuild(lib: Library)
      requires lib.IsOpen(msg)
      modifies this, lib
      ensures msg == old(lib.issued) && lib.issued == old(lib.issued) + 1
      ensures lib.closed == old(lib.closed) + [old(msg)]
    {
      lib.Close(msg);
      var h := lib.Open();
      msg := h;
    }

    /** The destructor. */
    method Destroy(lib: Library)
      requires lib.IsOpen(msg)
      modifies lib
      ensures lib.closed == old(lib.closed) + [msg] && lib.issued == old(lib.issued)
    {
      lib.Close(msg);
    }
  }

  /** A program and the wrappers alive in it. */
  class Program {
    const lib: Library
    var pointers: map<Name, PointerWrapper>
    var messages: map<Name, MessageWrapper>
    ghost var home: seq<Place>

    /** The protocol state the heap stands for. */
    ghost function View(): State
      reads this, lib, pointers.Values, messages.Values
    {
      State(map w | w in pointers :: pointers[w].ptr, map w | w in messages :: messages[w].msg, lib.issued, lib.closed)
    }

    ghost predicate Valid()
      reads this, lib, pointers.Values, messages.Values
    {
      && (forall v, w | v in pointers && w in pointers && v != w :: pointers[v] != pointers[w])
      && (forall v, w | v in messages && w in messages && v != w :: messages[v] != messages[w])
      && Ledger(View(), home)
    }

    constructor ()
      ensures Valid() && View() == START && fresh(lib)
      ensures pointers == map[] && messages == map[]
    {
      lib := new Library();
      pointers, messages, home := map[], map[], [];
    }

    /** A wrapper holds an open handle, so closing it is right. */
    lemma PointerIsOpen(w: Name)
      requires Valid() && w in pointers && pointers[w].ptr.Some?
      ensures lib.IsOpen(pointers[w].ptr.value)
    {
      LedgerBalances(View(), home);
      assert HeldByPointer(View(), w, pointers[w].ptr.value);
      assert Held(View(), pointers[w].ptr.value);
    }

    lemma MessageIsOpen(w: Name)
      requires Valid() && w in messages
      ensures lib.IsOpen(messages[w].msg)
    {
      LedgerBalances(View(), home);
      assert HeldByMessage(View(), w, messages[w].msg);
      assert Held(View(), messages[w].msg);
    }

    method Open(w: Name)
      requires Valid() && w !in pointers
      modifies this, lib
      ensures Valid() && View() == Step(old(View()), Op.Open(w))
      ensures messages == old(messages) && fresh(pointers.Values - old(pointers.Values))
    {
      OpenLedger(View(), home, w);
      ghost var t := Step(View(), Op.Open(w));
      var p := new PointerWrapper.Open(lib);
      pointers := pointers[w := p];
      home := home + [AtPointer(w)];
      assert View() == t;
    }

    method MoveConstruct(w: Name, from: Name)
      requires Valid() && w !in pointers && from in pointers
      modifies this, pointers[from]
      ensures Valid() && View() == Step(old(View()), Op.MoveConstruct(w, from))
      ensures messages == old(messages) && fresh(pointers.Values - old(pointers.Values))
    {
      ghost var s := View();
      var p := new PointerWrapper.Move(pointers[from]);
      pointers := pointers[w := p];
      home := MoveLedger(s, home, w, from);
      assert View() == Step(s, Op.MoveConstruct(w, from));
    }

    method MoveAssign(w: Name, from: Name)
      requires Valid() && w in pointers && from in pointers
      modifies `home, pointers[w], pointers[from]
      ensures Valid() && View() == Step(old(View()), Op.MoveAssign(w, from))
      ensures pointers == old(pointers) && messages == old(messages)
    {
      ghost var s := View();
      pointers[w].Assign(pointers[from]);
      home := MoveAssignLedger(s, home, w, from);
      assert View() == Step(s, Op.MoveAssign(w, from));
    }

    method Close(w: Name)
      requires Valid() && w in pointers
      modifies `home, lib, pointers[w]
      ensures Valid() && View() == Step(old(View()), Op.Close(w)) && pointers[w].ptr == None
      ensures pointers == old(pointers) && messages == old(messages)
    {
      ghost var s := View();
      if pointers[w].ptr.Some? {
        PointerIsOpen(w);
      }
      pointers[w].Close(lib);
      home := CloseLedger(s, home, w);
      assert View() == CloseAt(s, w);
    }

    method Destroy(w: Name)
      requires Valid() && w in pointers
      modifies this, lib, pointers[w]
      ensures Valid() && View() == Step(old(View()), Op.Destroy(w))
      ensures messages == old(messages) && fresh(pointers.Values - old(pointers.Values))
    {
      Close(w);
      Remove(w);
    }

    /** The end of a closed wrapper. */
    method Remove(w: Name)
      requires Valid() && w in pointers && pointers[w].ptr == None
      modifies `pointers
      ensures Valid() && View() == old(View()).(pointers := old(View()).pointers - {w})
      ensures messages == old(messages) && pointers.Values <= old(pointers.Values)
    {
      ghost var s := View();
      assert s.pointers[w] == pointers[w].ptr;
      RemoveClosed(s, home, w);
      ghost var t := s.(pointers := s.pointers - {w});
      pointers := pointers - {w};
      assert View() == t;
    }

    method InitMessage(w: Name)
      requires Valid() && w !in messages
      modifies this, lib
      ensures Valid() && View() == Step(old(View()), Op.InitMessage(w))
      ensures pointers == old(pointers) && fresh(messages.Values - old(messages.Values))
    {
      InitMessageLedger(View(), home, w);
      ghost var t := Step(View(), Op.InitMessage(w));
      var m := new MessageWrapper.Init(lib);
      messages := messages[w := m];
      home := home + [AtMessage(w)];
      assert View() == t;
    }

    method MoveConstructMessage(w: Name, from: Name)
      requires Valid() && w !in messages && from in messages
      modifies this, lib, messages[from]
      ensures Valid() && View() == Step(old(View()), Op.MoveConstructMessage(w, from))
      ensures pointers == old(pointers) && fresh(messages.Values - old(messages.Values))
    {
      ghost var s := View();
      var m := new MessageWrapper.Move(messages[from], lib);
      messages := messages[w := m];
      home := MoveMessageLedger(s, home, w, from);
      assert View() == Step(s, Op.MoveConstructMessage(w, from));
    }

    method MoveAssignMessage(w: Name, from: Name)
      requires Valid() && w in messages && from in messages
      modifies `home, messages[w], messages[from]
      ensures Valid() && View() == Step(old(View()), Op.MoveAssignMessage(w, from))
      ensures pointers == old(pointers) && messages == old(messages)
    {
      ghost var s := View();
      messages[w].Assign(messages[from]);
      home := MoveAssignMessageLedger(s, home, w, from);
      assert View() == Step(s, Op.MoveAssignMessage(w, from));
    }

    method Rebuild(w: Name)
      requires Valid() && w in messages
      modifies `home, lib, messages[w]
      ensures Valid() && View() == Step(old(View()), Op.Rebuild(w))
      ensures pointers == old(pointers) && messages == old(messages)
    {
      ghost var s := View();
      MessageIsOpen(w);
      messages[w].Rebuild(lib);
      home := RebuildLedger(s, home, w);
      assert View() == Step(s, Op.Rebuild(w));
    }

    method DestroyMessage(w: Name)
      requires Valid() && w in messages
      modifies this, lib
      ensures Valid() && View() == Step(old(View()), Op.DestroyMessage(w))
      ensures pointers == old(pointers) && fresh(messages.Values - old(messages.Values))
    {
      ghost var s := View();
      MessageIsOpen(w);
      messages[w].Destroy(lib);
      messages := messages - {w};
      home := DestroyMessageLedger(s, home, w);
      assert View() == Step(s, Op.DestroyMessage(w));
    }

    method Execute(op: Op)
      requires Valid() && Enabled(View(), op)
      modifies this, lib, pointers.Values, messages.Values
      ensures Valid() && View() == Step(old(View()), op) && Effect(old(View()), op, View())
      ensures fresh(pointers.Values - old(pointers.Values)) && fresh(messages.Values - old(messages.Values))
    {
      StepHasEffect(View(), op);
      match op
      case Open(w) => Open(w);
      case MoveConstruct(w, from) => MoveConstruct(w, from);
      case MoveAssign(w, from) => MoveAssign(w, from);
      case Close(w) => Close(w);
      case Destroy(w) => Destroy(w);
      case InitMessage(w) => InitMessage(w);
      case MoveConstructMessage(w, from) => MoveConstructMessage(w, from);
      case MoveAssignMessage(w, from) => MoveAssignMessage(w, from);
      case Rebuild(w) => Rebuild(w);
      case DestroyMessage(w) => DestroyMessage(w);
    }

    /** Any program: the heap follows the protocol, whose runs never close a handle twice or lose one. */
    method RunAll(ops: seq<Op>)
      requires Valid() && AllEnabled(View(), ops)
      modifies this, lib, pointers.Values, messages.Values
      ensures Valid() && View() == Run(old(View()), ops) && Balanced(View())
      ensures fresh(pointers.Values - old(pointers.Values)) && fresh(messages.Values - old(messages.Values))
    {
      ghost var s := View();
      for i := 0 to |ops|
        invariant Valid() && AllEnabled(View(), ops[i..]) && Run(View(), ops[i..]) == Run(s, ops)
        invariant fresh(pointers.Values - old(pointers.Values)) && fresh(messages.Values - old(messages.Values))
      {
        assert ops[i..][0] == ops[i] && ops[i..][1..] == ops[i + 1..];
        Execute(ops[i]);
      }
      LedgerBalances(View(), home);
    }
  }

  /** From start to end: once a program has destroyed all its wrappers, each handle the library gave out
      has come back to it exactly once. */
  method WholeProgram(ops: seq<Op>) returns (p: Program)
    requires AllEnabled(START, ops)
    ensures p.View() == Run(START, ops) && Balanced(p.View())
    ensures p.pointers == map[] && p.messages == map[] ==>
              forall h: Handle :: multiset(p.lib.closed)[h] == if h < p.lib.issued then 1 else 0
  {
    p := new Program();
    p.RunAll(ops);
    if p.pointers == map[] && p.messages == map[] {
      assert p.View().pointers == map[] && p.View().messages == map[];
      AllClosedInTheEnd(ops);
    }
  }
}
