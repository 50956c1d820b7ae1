/** cppzmq/zmq.hpp, as a protocol: who owns which library handle while wrappers are constructed, moved,
    closed and destroyed.  Library calls are taken to succeed. */
module HandleLedgers {

  type Handle = nat
  type Name = nat

  datatype Option<T> = None | Some(value: T)

  /** `pointers` are the live `context_t` and `socket_t` wrappers, whose `ptr` may be null; `messages` the
      live `message_t` wrappers, which always hold an initialised message.  Handles are numbered in the
      order the library opened them. */
  datatype State = State(
    pointers: map<Name, Option<Handle>>,
    messages: map<Name, Handle>,
    issued: nat,
    closed: seq<Handle>)

  const START := State(map[], map[], 0, [])

  datatype Op =
    // context_t, socket_t
    | Open(w: Name)
    | MoveConstruct(w: Name, from: Name)
    | MoveAssign(w: Name, from: Name)
    | Close(w: Name)
    | Destroy(w: Name)
    // message_t
    | InitMessage(w: Name)
    | MoveConstructMessage(w: Name, from: Name)
    | MoveAssignMessage(w: Name, from: Name)
    | Rebuild(w: Name)
    | DestroyMessage(w: Name)

  /** What the language asks: an object is constructed once, and used while it lives. */
  predicate Enabled(s: State, op: Op) {
    match op
    case Open(w) => w !in s.pointers
    case MoveConstruct(w, from) => w !in s.pointers && from in s.pointers
    case MoveAssign(w, from) => w in s.pointers && from in s.pointers
    case Close(w) => w in s.pointers
    case Destroy(w) => w in s.pointers
    case InitMessage(w) => w !in s.messages
    case MoveConstructMessage(w, from) => w !in s.messages && from in s.messages
    case MoveAssignMessage(w, from) => w in s.messages && from in s.messages
    case Rebuild(w) => w in s.messages
    case DestroyMessage(w) => w in s.messages
  }

  /** `close`: nothing on a null pointer. */
  function CloseAt(s: State, w: Name): State
    requires w in s.pointers
  {
    match s.pointers[w]
    case None => s
    case Some(h) => s.(pointers := s.pointers[w := None], closed := s.closed + [h])
  }

  function Step(s: State, op: Op): State
    requires Enabled(s, op)
  {
    match op
    case Open(w) => s.(pointers := s.pointers[w := Some(s.issued)], issued := s.issued + 1)
    case MoveConstruct(w, from) => s.(pointers := s.pointers[w := s.pointers[from]][from := None])
    case MoveAssign(w, from) => s.(pointers := s.pointers[w := s.pointers[from]][from := s.pointers[w]])
    case Close(w) => CloseAt(s, w)
    case Destroy(w) => var t := CloseAt(s, w); t.(pointers := t.pointers - {w})
    case InitMessage(w) => s.(messages := s.messages[w := s.issued], issued := s.issued + 1)
    case MoveConstructMessage(w, from) =>
      s.(messages := s.messages[w := s.messages[from]][from := s.issued], issued := s.issued + 1)
    case MoveAssignMessage(w, from) => s.(messages := s.messages[w := s.messages[from]][from := s.messages[w]])
    case Rebuild(w) =>
      s.(messages := s.messages[w := s.issued], issued := s.issued + 1, closed := s.closed + [s.messages[w]])
    case DestroyMessage(w) => s.(messages := s.messages - {w}, closed := s.closed + [s.messages[w]])
  }

  // ----- what each operation does, said about the wrappers one by one

  ghost predicate SameExcept<T>(m: map<Name, T>, m': map<Name, T>, changed: set<Name>) {
    forall n | n !in changed :: (n in m <==> n in m') && (n in m ==> m'[n] == m[n])
  }

  /** `t` is what `op` leaves of `s`: where it takes each handle, what it opens and closes, and that the
      other wrappers keep what they have. */
  ghost predicate Effect(s: State, op: Op, t: State)
    requires Enabled(s, op)
  {
    match op
    case Open(w) =>
      && w in t.pointers && t.pointers[w] == Some(s.issued) && SameExcept(s.pointers, t.pointers, {w})
      && t.messages == s.messages && t.issued == s.issued + 1 && t.closed == s.closed
    case MoveConstruct(w, from) =>
      && w in t.pointers && from in t.pointers && SameExcept(s.pointers, t.pointers, {w, from})
      && t.pointers[w] == s.pointers[from] && t.pointers[from] == None
      && t.messages == s.messages && t.issued == s.issued && t.closed == s.closed
    case MoveAssign(w, from) =>
      && w in t.pointers && from in t.pointers && SameExcept(s.pointers, t.pointers, {w, from})
      && t.pointers[w] == s.pointers[from] && t.pointers[from] == s.pointers[w]
      && t.messages == s.messages && t.issued == s.issued && t.closed == s.closed
    case Close(w) =>
      && w in t.pointers && t.pointers[w] == None && SameExcept(s.pointers, t.pointers, {w})
      && t.messages == s.messages && t.issued == s.issued
      && t.closed == s.closed + (match s.pointers[w] case None => [] case Some(h) => [h])
    case Destroy(w) =>
      && w !in t.pointers && SameExcept(s.pointers, t.pointers, {w})
      && t.messages == s.messages && t.issued == s.issued
      && t.closed == s.closed + (match s.pointers[w] case None => [] case Some(h) => [h])
    case InitMessage(w) =>
      && w in t.messages && t.messages[w] == s.issued && SameExcept(s.messages, t.messages, {w})
      && t.pointers == s.pointers && t.issued == s.issued + 1 && t.closed == s.closed
    case MoveConstructMessage(w, from) =>
      && w in t.messages && from in t.messages && SameExcept(s.messages, t.messages, {w, from})
      && t.messages[w] == s.messages[from] && t.messages[from] == s.issued
      && t.pointers == s.pointers && t.issued == s.issued + 1 && t.closed == s.closed
    case MoveAssignMessage(w, from) =>
      && w in t.messages && from in t.messages && SameExcept(s.messages, t.messages, {w, from})
      && t.messages[w] == s.messages[from] && t.messages[from] == s.messages[w]
      && t.pointers == s.pointers && t.issued == s.issued && t.closed == s.closed
    case Rebuild(w) =>
      && w in t.messages && t.messages[w] == s.issued && SameExcept(s.messages, t.messages, {w})
      && t.pointers == s.pointers && t.issued == s.issued + 1 && t.closed == s.closed + [s.messages[w]]
    case DestroyMessage(w) =>
      && w !in t.messages && SameExcept(s.messages, t.messages, {w})
      && t.pointers == s.pointers && t.issued == s.issued && t.closed == s.closed + [s.messages[w]]
  }

  lemma StepHasEffect(s: State, op: Op)
    requires Enabled(s, op)
    ensures Effect(s, op, Step(s, op))
  {
  }

  /** An operation leaves exactly the state its effect describes. */
  lemma EffectIsStep(s: State, op: Op, t: State)
    requires Enabled(s, op)
    ensures t == Step(s, op) <==> Effect(s, op, t)
  {
  }

  predicate AllEnabled(s: State, ops: seq<Op>)
    decreases |ops|
  {
    ops == [] || (Enabled(s, ops[0]) && AllEnabled(Step(s, ops[0]), ops[1..]))
  }

  function Run(s: State, ops: seq<Op>): State
    requires AllEnabled(s, ops)
    decreases |ops|
  {
    if ops == [] then s else Run(Step(s, ops[0]), ops[1..])
  }

  // ----- the invariant

  ghost predicate HeldByPointer(s: State, w: Name, h: Handle) {
    w in s.pointers && s.pointers[w] == Some(h)
  }

  ghost predicate HeldByMessage(s: State, w: Name, h: Handle) {
    w in s.messages && s.messages[w] == h
  }

  ghost predicate Held(s: State, h: Handle) {
    (exists w :: HeldByPointer(s, w, h)) || (exists w :: HeldByMessage(s, w, h))
  }

  /** No two wrappers hold the same handle. */
  ghost predicate SoleOwners(s: State) {
    && (forall v, w, h :: HeldByPointer(s, v, h) && HeldByPointer(s, w, h) ==> v == w)
    && (forall v, w, h :: HeldByMessage(s, v, h) && HeldByMessage(s, w, h) ==> v == w)
    && (forall v, w, h :: HeldByPointer(s, v, h) ==> !HeldByMessage(s, w, h))
  }

  ghost predicate NoRepeats(hs: seq<Handle>) {
    forall i, j | 0 <= i < j < |hs| :: hs[i] != hs[j]
  }

  /** Every handle opened is either held by exactly one wrapper and still open, or held by none and
      closed exactly once. */
  ghost predicate Balanced(s: State) {
    && SoleOwners(s)
    && NoRepeats(s.closed)
    && (forall h: Handle :: h < s.issued <==> Held(s, h) || h in s.closed)
    && (forall h: Handle :: !(Held(s, h) && h in s.closed))
  }

  /** Move assignment exchanges what two wrappers own, and touches no other. */
  lemma MoveAssignExchanges(s: State, w: Name, from: Name, h: Handle)
    requires Enabled(s, MoveAssign(w, from))
    ensures var t := Step(s, MoveAssign(w, from));
            && (HeldByPointer(t, w, h) <==> HeldByPointer(s, from, h))
            && (HeldByPointer(t, from, h) <==> HeldByPointer(s, w, h))
            && forall v | v != w && v != from :: HeldByPointer(t, v, h) <==> HeldByPointer(s, v, h)
  {
  }

  lemma MoveAssignMessageExchanges(s: State, w: Name, from: Name, h: Handle)
    requires Enabled(s, MoveAssignMessage(w, from))
    ensures var t := Step(s, MoveAssignMessage(w, from));
            && (HeldByMessage(t, w, h) <==> HeldByMessage(s, from, h))
            && (HeldByMessage(t, from, h) <==> HeldByMessage(s, w, h))
            && forall v | v != w && v != from :: HeldByMessage(t, v, h) <==> HeldByMessage(s, v, h)
  {
  }

  /** A wrapper can be assigned to itself, and keeps what it owns. */
  lemma SelfAssignment(s: State, w: Name)
    ensures w in s.pointers ==> Enabled(s, MoveAssign(w, w)) && Step(s, MoveAssign(w, w)) == s
    ensures w in s.messages ==> Enabled(s, MoveAssignMessage(w, w)) && Step(s, MoveAssignMessage(w, w)) == s
  {
  }

  /** Move construction hands everything over: the end of the source then closes nothing, and what it
      had is closed with the new wrapper. */
  lemma MovedThenDestroyed(s: State, w: Name, from: Name, h: Handle)
    requires Enabled(s, MoveConstruct(w, from)) && w != from && HeldByPointer(s, from, h)
    ensures var t := Step(Step(s, MoveConstruct(w, from)), Destroy(from));
            && HeldByPointer(t, w, h) && from !in t.pointers && t.closed == s.closed
            && Step(t, Destroy(w)).closed == s.closed + [h]
  {
  }

  /** A moved-from message has a message of its own to close, not the one it handed over. */
  lemma MovedMessageThenDestroyed(s: State, w: Name, from: Name, h: Handle)
    requires Enabled(s, MoveConstructMessage(w, from)) && w != from && HeldByMessage(s, from, h)
    ensures var t := Step(Step(s, MoveConstructMessage(w, from)), DestroyMessage(from));
            && HeldByMessage(t, w, h) && from !in t.messages && t.closed == s.closed + [s.issued]
            && Step(t, DestroyMessage(w)).closed == s.closed + [s.issued, h]
  {
  }

  // ----- the ledger: where each handle is

  datatype Place = AtPointer(w: Name) | AtMessage(w: Name) | ClosedAs(i: nat)

  ghost predicate IsAt(s: State, h: Handle, p: Place) {
    match p
    case AtPointer(w) => HeldByPointer(s, w, h)
    case AtMessage(w) => HeldByMessage(s, w, h)
    case ClosedAs(i) => i < |s.closed| && s.closed[i] == h
  }

  /** `home` says of every handle where it is, and it is nowhere else. */
  ghost predicate Ledger(s: State, home: seq<Place>) {
    && |home| == s.issued
    && (forall h: Handle | h < |home| :: IsAt(s, h, home[h]))
    && (forall h: Handle, p :: IsAt(s, h, p) ==> h < |home| && home[h] == p)
  }

  lemma LedgerBalances(s: State, home: seq<Place>)
    requires Ledger(s, home)
    ensures Balanced(s)
  {
    assert forall w, h :: HeldByPointer(s, w, h) ==> IsAt(s, h, AtPointer(w));
    assert forall w, h :: HeldByMessage(s, w, h) ==> IsAt(s, h, AtMessage(w));
    assert forall i: nat | i < |s.closed| :: IsAt(s, s.closed[i], ClosedAs(i));
    forall h: Handle | h < s.issued
      ensures Held(s, h) || h in s.closed
    {
      assert IsAt(s, h, home[h]);
    }
  }

  // Each step moves the handles it touches, and no other.

  lemma OpenLedger(s: State, home: seq<Place>, w: Name)
    requires Ledger(s, home) && w !in s.pointers
    ensures Ledger(Step(s, Open(w)), home + [AtPointer(w)])
  {
    var t, home' := Step(s, Open(w)), home + [AtPointer(w)];
    forall h: Handle, p | IsAt(t, h, p)
      ensures h < |home'| && home'[h] == p
    {
      if p != AtPointer(w) {
        assert IsAt(s, h, p);
      }
    }
    forall h: Handle | h < |home'|
      ensures IsAt(t, h, home'[h])
    {
      if h < |home| {
        assert IsAt(s, h, home[h]);
      }
    }
  }

  lemma CloseLedger(s: State, home: seq<Place>, w: Name) returns (home': seq<Place>)
    requires Ledger(s, home) && w in s.pointers
    ensures Ledger(CloseAt(s, w), home')
  {
    match s.pointers[w]
    case None => home' := home;
    case Some(h) =>
      var t := CloseAt(s, w);
      assert IsAt(s, h, AtPointer(w));
      home' := home[h := ClosedAs(|s.closed|)];
      forall g: Handle, p | IsAt(t, g, p)
        ensures g < |home'| && home'[g] == p
      {
        if p != ClosedAs(|s.closed|) {
          assert IsAt(s, g, p);
        }
      }
  }

  /** A closed wrapper holds nothing, so nothing goes with it. */
  lemma RemoveClosed(s: State, home: seq<Place>, w: Name)
    requires Ledger(s, home) && w in s.pointers && s.pointers[w] == None
    ensures Ledger(s.(pointers := s.pointers - {w}), home)
  {
    forall h: Handle, p
      ensures IsAt(s.(pointers := s.pointers - {w}), h, p) <==> IsAt(s, h, p)
    {
    }
  }

  lemma DestroyLedger(s: State, home: seq<Place>, w: Name) returns (home': seq<Place>)
    requires Ledger(s, home) && w in s.pointers
    ensures Ledger(Step(s, Destroy(w)), home')
  {
    home' := CloseLedger(s, home, w);
    RemoveClosed(CloseAt(s, w), home', w);
  }

  /** The new wrapper takes over, and the old one is left empty. */
  lemma MoveLedger(s: State, home: seq<Place>, w: Name, from: Name) returns (home': seq<Place>)
    requires Ledger(s, home) && w !in s.pointers && from in s.pointers
    ensures Ledger(Step(s, MoveConstruct(w, from)), home')
  {
    var t := Step(s, MoveConstruct(w, from));
    match s.pointers[from]
    case None =>
      home' := home;
      forall h: Handle, p
        ensures IsAt(t, h, p) <==> IsAt(s, h, p)
      {
      }
    case Some(h) =>
      assert IsAt(s, h, AtPointer(from));
      home' := home[h := AtPointer(w)];
      forall g: Handle, p | IsAt(t, g, p)
        ensures g < |home'| && home'[g] == p
      {
        if p != AtPointer(w) {
          assert IsAt(s, g, p);
        }
      }
  }

  /** Where the exchange of `v` and `w` takes what was at `p`. */
  function Exchanged(p: Place, v: Place, w: Place): Place {
    if p == v then w else if p == w then v else p
  }

  lemma {:induction false} ExchangeLedger(s: State, t: State, home: seq<Place>, v: Place, w: Place) returns (home': seq<Place>)
    requires Ledger(s, home) && t.issued == s.issued
    requires forall h: Handle, p :: IsAt(t, h, Exchanged(p, v, w)) <==> IsAt(s, h, p)
    ensures Ledger(t, home')
  {
    home' := seq(|home|, i requires 0 <= i < |home| => Exchanged(home[i], v, w));
    forall h: Handle, p | IsAt(t, h, p)
      ensures h < |home'| && home'[h] == p
    {
      assert Exchanged(Exchanged(p, v, w), v, w) == p;
      assert IsAt(s, h, Exchanged(p, v, w));
    }
    forall h: Handle | h < |home'|
      ensures IsAt(t, h, home'[h])
    {
      assert IsAt(s, h, home[h]);
    }
  }

  lemma MoveAssignLedger(s: State, home: seq<Place>, w: Name, from: Name) returns (home': seq<Place>)
    requires Ledger(s, home) && w in s.pointers && from in s.pointers
    ensures Ledger(Step(s, MoveAssign(w, from)), home')
  {
    home' := ExchangeLedger(s, Step(s, MoveAssign(w, from)), home, AtPointer(w), AtPointer(from));
  }

  lemma MoveAssignMessageLedger(s: State, home: seq<Place>, w: Name, from: Name) returns (home': seq<Place>)
    requires Ledger(s, home) && w in s.messages && from in s.messages
    ensures Ledger(Step(s, MoveAssignMessage(w, from)), home')
  {
    home' := ExchangeLedger(s, Step(s, MoveAssignMessage(w, from)), home, AtMessage(w), AtMessage(from));
  }

  lemma InitMessageLedger(s: State, home: seq<Place>, w: Name)
    requires Ledger(s, home) && w !in s.messages
    ensures Ledger(Step(s, InitMessage(w)), home + [AtMessage(w)])
  {
    var t, home' := Step(s, InitMessage(w)), home + [AtMessage(w)];
    forall h: Handle, p | IsAt(t, h, p)
      ensures h < |home'| && home'[h] == p
    {
      if p != AtMessage(w) {
        assert IsAt(s, h, p);
      }
    }
    forall h: Handle | h < |home'|
      ensures IsAt(t, h, home'[h])
    {
      if h < |home| {
        assert IsAt(s, h, home[h]);
      }
    }
  }

  /** The new message takes over, and the old one is initialised afresh. */
  lemma MoveMessageLedger(s: State, home: seq<Place>, w: Name, from: Name) returns (home': seq<Place>)
    requires Ledger(s, home) && w !in s.messages && from in s.messages
    ensures Ledger(Step(s, MoveConstructMessage(w, from)), home')
  {
    var t, h := Step(s, MoveConstructMessage(w, from)), s.messages[from];
    assert IsAt(s, h, AtMessage(from));
    home' := home[h := AtMessage(w)] + [AtMessage(from)];
    forall g: Handle, p | IsAt(t, g, p)
      ensures g < |home'| && home'[g] == p
    {
      if p != AtMessage(w) && p != AtMessage(from) {
        assert IsAt(s, g, p);
      }
    }
    forall g: Handle | g < |home'|
      ensures IsAt(t, g, home'[g])
    {
      if g < |home| {
        assert IsAt(s, g, home[g]);
      }
    }
  }

  /** What a message held ends among the closed handles, whether it is destroyed ... */
  lemma DestroyMessageLedger(s: State, home: seq<Place>, w: Name) returns (home': seq<Place>)
    requires Ledger(s, home) && w in s.messages
    ensures Ledger(Step(s, DestroyMessage(w)), home')
  {
    var t, h := Step(s, DestroyMessage(w)), s.messages[w];
    assert IsAt(s, h, AtMessage(w));
    home' := home[h := ClosedAs(|s.closed|)];
    forall g: Handle, p | IsAt(t, g, p)
      ensures g < |home'| && home'[g] == p
    {
      if p != ClosedAs(|s.closed|) {
        assert IsAt(s, g, p);
      }
    }
    forall g: Handle | g < |home'|
      ensures IsAt(t, g, home'[g])
    {
      assert IsAt(s, g, home[g]);
    }
  }

  /** ... or rebuilt, which is to destroy it and initialise it again. */
  lemma RebuildLedger(s: State, home: seq<Place>, w: Name) returns (home': seq<Place>)
    requires Ledger(s, home) && w in s.messages
    ensures Ledger(Step(s, Rebuild(w)), home')
  {
    var u := Step(s, DestroyMessage(w));
    var home1 := DestroyMessageLedger(s, home, w);
    InitMessageLedger(u, home1, w);
    home' := home1 + [AtMessage(w)];
    assert Step(u, InitMessage(w)).messages == Step(s, Rebuild(w)).messages;
  }

  lemma StepLedger(s: State, home: seq<Place>, op: Op) returns (home': seq<Place>)
    requires Ledger(s, home) && Enabled(s, op)
    ensures Ledger(Step(s, op), home')
  {
    match op
    case Open(w) =>
      OpenLedger(s, home, w);
      home' := home + [AtPointer(w)];
    case MoveConstruct(w, from) => home' := MoveLedger(s, home, w, from);
    case MoveAssign(w, from) => home' := MoveAssignLedger(s, home, w, from);
    case Close(w) => home' := CloseLedger(s, home, w);
    case Destroy(w) => home' := DestroyLedger(s, home, w);
    case InitMessage(w) =>
      InitMessageLedger(s, home, w);
      home' := home + [AtMessage(w)];
    case MoveConstructMessage(w, from) => home' := MoveMessageLedger(s, home, w, from);
    case MoveAssignMessage(w, from) => home' := MoveAssignMessageLedger(s, home, w, from);
    case Rebuild(w) => home' := RebuildLedger(s, home, w);
    case DestroyMessage(w) => home' := DestroyMessageLedger(s, home, w);
  }

  // ----- whole runs

  lemma {:induction false} RunLedger(s: State, home: seq<Place>, ops: seq<Op>) returns (home': seq<Place>)
    requires Ledger(s, home) && AllEnabled(s, ops)
    ensures Ledger(Run(s, ops), home')
    decreases |ops|
  {
    if ops == [] {
      home' := home;
    } else {
      home' := StepLedger(s, home, ops[0]);
      home' := RunLedger(Step(s, ops[0]), home', ops[1..]);
    }
  }

  /** After any run from the start: no handle has two owners, none is closed twice, and none is lost. */
  lemma EveryRunBalances(ops: seq<Op>)
    requires AllEnabled(START, ops)
    ensures Balanced(Run(START, ops))
  {
    assert Ledger(START, []);
    var home := RunLedger(START, [], ops);
    LedgerBalances(Run(START, ops), home);
  }

  /** Once all wrappers are destroyed, every handle opened has been closed exactly once. */
  lemma AllClosedInTheEnd(ops: seq<Op>)
    requires AllEnabled(START, ops)
    requires Run(START, ops).pointers == map[] && Run(START, ops).messages == map[]
    ensures forall h: Handle :: multiset(Run(START, ops).closed)[h] == if h < Run(START, ops).issued then 1 else 0
  {
    EveryRunBalances(ops);
    var s := Run(START, ops);
    forall h: Handle
      ensures multiset(s.closed)[h] == if h < s.issued then 1 else 0
    {
      CountOnce(s.closed, h);
      assert !Held(s, h);
    }
  }

  lemma {:induction false} CountOnce(hs: seq<Handle>, h: Handle)
    requires NoRepeats(hs)
    ensures multiset(hs)[h] == if h in hs then 1 else 0
  {
    if hs != [] {
      CountOnce(hs[1..], h);
      assert hs == [hs[0]] + hs[1..];
    }
  }
}
