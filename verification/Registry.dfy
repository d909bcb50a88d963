/**
 The room registry of DMProxy: which platform instance serves which room, who listens to it, and
 when the instances are started and closed. One step is one critical section of `rp_rw_mtx`, or
 one call of `publish`.
 */
module Registry {

  type Conn(==, !new)
  type Inst = nat
  type Room = string

  // ---------------------------------------------------------------- room names

  /** What `boost::trim` takes away in the C locale. */
  predicate IsSpace(ch: char) {
    ch == ' ' || '\t' <= ch <= '\r'
  }

  function TrimLeft(s: string): string {
    if s != [] && IsSpace(s[0]) then TrimLeft(s[1..]) else s
  }

  function TrimRight(s: string): string {
    if s != [] && IsSpace(s[|s| - 1]) then TrimRight(s[..|s| - 1]) else s
  }

  function Trim(s: string): string {
    TrimRight(TrimLeft(s))
  }

  /** `find_first_of('_')`, or the length if there is none. */
  function Underscore(s: string): (pos: nat)
    ensures pos <= |s| && '_' !in s[..pos] && (pos < |s| ==> s[pos] == '_')
  {
    if s == [] || s[0] == '_' then 0 else 1 + Underscore(s[1..])
  }

  /** A payload in the right format names a room. */
  predicate WellFormed(room: Room) {
    |room| > 3 && 0 < Underscore(room) < |room| - 1
  }

  function TagOf(room: Room): string {
    room[..Underscore(room)]
  }

  const PLATFORMS: set<string> := {"huajiao", "douyu", "bilibili", "YY"}

  // ---------------------------------------------------------------- the state

  /** A platform instance: its listeners, and how often the registry has started and closed it. */
  datatype Instance = Instance(listeners: set<Conn>, starts: nat, closes: nat)

  /**
   `bound` is the room in each connection's message handler, `closing` the one in its close
   handler; both are missing as long as the connection has the handlers it began with. Instances
   are numbered as they are made.
   */
  datatype State = State(
    rooms: map<Room, Inst>,
    instances: map<Inst, Instance>,
    bound: map<Conn, Room>,
    closing: map<Conn, Room>,
    made: nat)

  const INITIAL: State := State(map[], map[], map[], map[], 0)

  function Bound(s: State, c: Conn): Room {
    if c in s.bound then s.bound[c] else ""
  }

  function At(s: State, i: Inst): Instance {
    if i in s.instances then s.instances[i] else Instance({}, 0, 0)
  }

  function Put(s: State, i: Inst, x: Instance): State {
    s.(instances := s.instances[i := x])
  }

  /** `c` is a listener of the instance that room `r` is mapped to. */
  predicate Listens(s: State, c: Conn, r: Room) {
    r in s.rooms && c in At(s, s.rooms[r]).listeners
  }

  // ---------------------------------------------------------------- the steps

  datatype Event =
    | Message(c: Conn, isText: bool, payload: string, roomValid: bool)
    | ServerClose(c: Conn)
    | PlatformClose(room: Room)
    | Publish(i: Inst, failed: set<Conn>)

  /** A connection leaves a room; if nobody is left, the instance is closed and the room unmapped. */
  function Leave(s: State, c: Conn, r: Room): State {
    if r !in s.rooms then s
    else
      var i := s.rooms[r];
      var x := At(s, i);
      var rest := x.listeners - {c};
      if rest != {} then Put(s, i, x.(listeners := rest))
      else Put(s, i, x.(listeners := rest, closes := x.closes + 1)).(rooms := s.rooms - {r})
  }

  /** What a connection's move to another room goes through first: it is bound to the new one and out of the old. */
  function Moved(s: State, c: Conn, r: Room): State {
    Leave(s.(bound := s.bound[c := r]), c, Bound(s, c))
  }

  /** A connection becomes the listener of an instance that is (once more) mapped and started. */
  function Enter(s: State, c: Conn, r: Room, i: Inst): State {
    var x := At(s, i);
    Put(s, i, x.(listeners := x.listeners + {c}, starts := x.starts + 1))
      .(rooms := s.rooms[r := i], closing := s.closing[c := r])
  }

  /** `platform_get_instance` */
  function Make(s: State): State {
    Put(s, s.made, Instance({}, 0, 0)).(made := s.made + 1)
  }

  /** The second half of `on_server_message`: into a room that is there, or into one that is opened. */
  function Arrive(s: State, c: Conn, r: Room, roomValid: bool): State {
    if r in s.rooms then
      var i := s.rooms[r];
      var x := At(s, i);
      if c !in x.listeners then Put(s, i, x.(listeners := x.listeners + {c})) else Enter(s, c, r, i)
    else if TagOf(r) !in PLATFORMS then s
    else if !roomValid then Make(s)
    else Enter(Make(s), c, r, s.made)
  }

  /** `on_server_message`, for a room named in the right format. */
  function Join(s: State, c: Conn, r: Room, roomValid: bool): State {
    if Bound(s, c) == r && r in s.rooms then s else Arrive(Moved(s, c, r), c, r, roomValid)
  }

  function Step(s: State, e: Event): State {
    match e
    case Message(c, isText, payload, roomValid) =>
      if isText && WellFormed(Trim(payload)) then Join(s, c, Trim(payload), roomValid) else s
    case ServerClose(c) => if c in s.closing then Leave(s, c, s.closing[c]) else s
    case PlatformClose(room) => s.(rooms := s.rooms - {room})
    case Publish(i, failed) =>
      if i in s.instances then Put(s, i, At(s, i).(listeners := At(s, i).listeners - failed)) else s
  }

  function Run(s: State, es: seq<Event>): State
    decreases |es|
  {
    if es == [] then s else Run(Step(s, es[0]), es[1..])
  }

  // ---------------------------------------------------------------- what every run keeps

  /** What is true of a mapped instance. */
  predicate MappedOk(s: State, r: Room) {
    r in s.rooms && s.rooms[r] in s.instances && At(s, s.rooms[r]).starts == 1 && At(s, s.rooms[r]).closes == 0
  }

  /** What is true of every instance, mapped or not. */
  predicate InstanceOk(x: Instance) {
    && x.starts <= 1 && x.closes <= x.starts
    && (x.starts == 0 || x.closes == 1 ==> x.listeners == {})
  }

  ghost predicate Inv(s: State) {
    && (forall i :: i in s.instances ==> i < s.made && InstanceOk(s.instances[i]))
    && (forall r :: r in s.rooms ==> MappedOk(s, r))
    && (forall q, r :: q in s.rooms && r in s.rooms && s.rooms[q] == s.rooms[r] ==> q == r)
    && (forall c, r :: Listens(s, c, r) ==> Bound(s, c) == r)
  }

  lemma BoundWhereListening(s: State, c: Conn, r: Room)
    requires Inv(s) && Listens(s, c, r)
    ensures Bound(s, c) == r
  {
  }

  /** Rooms may go, and listeners may go: nothing else has to be looked at again. */
  lemma ShrinkingKeeps(s: State, t: State)
    requires Inv(s) && t.bound == s.bound && t.made == s.made && t.instances.Keys == s.instances.Keys
    requires forall q :: q in t.rooms ==> q in s.rooms && t.rooms[q] == s.rooms[q]
    requires forall i :: i in t.instances ==>
               InstanceOk(t.instances[i]) && t.instances[i].listeners <= s.instances[i].listeners
    requires forall q :: q in t.rooms ==>
               At(t, t.rooms[q]).closes == 0 && At(t, t.rooms[q]).starts == At(s, t.rooms[q]).starts
    ensures Inv(t)
  {
    forall q | q in t.rooms ensures MappedOk(t, q) {
      assert MappedOk(s, q);
    }
    forall d, q | Listens(t, d, q) ensures Bound(t, d) == q {
      assert Listens(s, d, q);
      BoundWhereListening(s, d, q);
    }
  }

  lemma LeaveKeeps(s: State, c: Conn, r: Room)
    requires Inv(s)
    ensures Inv(Leave(s, c, r))
    ensures !Listens(Leave(s, c, r), c, r)
    ensures Leave(s, c, r).bound == s.bound
  {
    if r in s.rooms {
      assert MappedOk(s, r);
      ShrinkingKeeps(s, Leave(s, c, r));
    }
  }

  lemma Rebinds(s: State, c: Conn, r: Room)
    requires Inv(s) && !Listens(s, c, Bound(s, c))
    ensures var t := s.(bound := s.bound[c := r]); Inv(t) && forall q :: !Listens(t, c, q)
  {
    var t := s.(bound := s.bound[c := r]);
    forall d, q | Listens(t, d, q) ensures d != c && Bound(t, d) == q {
      assert Listens(s, d, q);
      BoundWhereListening(s, d, q);
    }
    forall q | q in t.rooms ensures MappedOk(t, q) {
      assert MappedOk(s, q);
    }
  }

  lemma MovedKeeps(s: State, c: Conn, r: Room)
    requires Inv(s)
    ensures Inv(Moved(s, c, r)) && Bound(Moved(s, c, r), c) == r
    ensures forall q :: !Listens(Moved(s, c, r), c, q)
  {
    hide Leave;
    var from := Bound(s, c);
    LeaveKeeps(s, c, from);
    BindLater(s, c, r);
    Rebinds(Leave(s, c, from), c, r);
  }

  lemma BindLater(s: State, c: Conn, r: Room)
    ensures var left := Leave(s, c, Bound(s, c));
            left.bound == s.bound && Moved(s, c, r) == left.(bound := left.bound[c := r])
  {
  }

  /**
   The fall-through at the end of the branch for a room that is there already: it would start a
   running instance again. It is never reached, for the connection has just left its only room.
   */
  lemma FallThroughUnreachable(s: State, c: Conn, r: Room)
    requires Inv(s)
    ensures var left := Moved(s, c, r);
            r in left.rooms ==> c !in At(left, left.rooms[r]).listeners
  {
    hide Moved, Inv;
    MovedKeeps(s, c, r);
    assert !Listens(Moved(s, c, r), c, r);
  }

  lemma AddsListener(s: State, c: Conn, r: Room)
    requires Inv(s) && r in s.rooms && Bound(s, c) == r
    ensures var i := s.rooms[r]; Inv(Put(s, i, At(s, i).(listeners := At(s, i).listeners + {c})))
  {
    var i := s.rooms[r];
    var t := Put(s, i, At(s, i).(listeners := At(s, i).listeners + {c}));
    assert MappedOk(s, r);
    forall d, q | Listens(t, d, q) ensures Bound(t, d) == q {
      if d == c && s.rooms[q] == i {
        assert q == r;
      } else {
        assert Listens(s, d, q);
        BoundWhereListening(s, d, q);
      }
    }
    forall q | q in t.rooms ensures MappedOk(t, q) {
      assert MappedOk(s, q);
    }
  }

  lemma MakeKeeps(s: State)
    requires Inv(s)
    ensures Inv(Make(s)) && At(Make(s), s.made) == Instance({}, 0, 0)
    ensures forall c, q :: Listens(Make(s), c, q) ==> Listens(s, c, q)
    ensures forall q :: q in s.rooms ==> s.rooms[q] < s.made
  {
    var t := Make(s);
    forall q | q in t.rooms ensures MappedOk(t, q) && s.rooms[q] < s.made {
      assert MappedOk(s, q);
    }
    forall d, q | Listens(t, d, q) ensures Listens(s, d, q) && Bound(t, d) == q {
      assert MappedOk(s, q);
      assert Listens(s, d, q);
      BoundWhereListening(s, d, q);
    }
  }

  lemma SameRooms(s: State)
    ensures Make(s).rooms == s.rooms && Make(s).bound == s.bound && s.made in Make(s).instances
  {
  }

  lemma EnterKeeps(s: State, c: Conn, r: Room, i: Inst)
    requires Inv(s) && r !in s.rooms && Bound(s, c) == r && i in s.instances && At(s, i) == Instance({}, 0, 0)
    requires forall q :: q in s.rooms ==> s.rooms[q] < i
    ensures Inv(Enter(s, c, r, i))
  {
    var t := Enter(s, c, r, i);
    forall q | q in t.rooms ensures MappedOk(t, q) {
      if q != r { assert MappedOk(s, q); }
    }
    forall d, q | Listens(t, d, q) ensures Bound(t, d) == q {
      if q != r {
        assert Listens(s, d, q);
        BoundWhereListening(s, d, q);
      }
    }
  }

  lemma JoinKeeps(s: State, c: Conn, r: Room, roomValid: bool)
    requires Inv(s)
    ensures Inv(Join(s, c, r, roomValid))
  {
    hide Inv, Moved, Enter, Make;
    MovedKeeps(s, c, r);
    FallThroughUnreachable(s, c, r);
    var left := Moved(s, c, r);
    if r in left.rooms {
      AddsListener(left, c, r);
    } else {
      MakeKeeps(left);
      SameRooms(left);
      EnterKeeps(Make(left), c, r, left.made);
    }
  }

  lemma StepKeeps(s: State, e: Event)
    requires Inv(s)
    ensures Inv(Step(s, e))
  {
    hide Join, Leave;
    match e
    case Message(c, isText, payload, roomValid) =>
      if isText && WellFormed(Trim(payload)) { JoinKeeps(s, c, Trim(payload), roomValid); }
    case ServerClose(c) =>
      if c in s.closing { LeaveKeeps(s, c, s.closing[c]); }
    case PlatformClose(room) => PlatformCloseKeeps(s, room);
    case Publish(i, failed) => if i in s.instances { PublishKeeps(s, i, failed); }
  }

  lemma PlatformCloseKeeps(s: State, room: Room)
    requires Inv(s)
    ensures Inv(s.(rooms := s.rooms - {room}))
  {
    ShrinkingKeeps(s, s.(rooms := s.rooms - {room}));
  }

  lemma PublishKeeps(s: State, i: Inst, failed: set<Conn>)
    requires Inv(s) && i in s.instances
    ensures Inv(Put(s, i, At(s, i).(listeners := At(s, i).listeners - failed)))
  {
    ShrinkingKeeps(s, Put(s, i, At(s, i).(listeners := At(s, i).listeners - failed)));
  }

  lemma {:induction false} RunKeeps(s: State, es: seq<Event>)
    requires Inv(s)
    ensures Inv(Run(s, es))
    decreases |es|
  {
    if es != [] {
      StepKeeps(s, es[0]);
      RunKeeps(Step(s, es[0]), es[1..]);
    }
  }

  /** At some point of the run, a room was mapped to instance `i`. */
  ghost predicate EverMapped(es: seq<Event>, i: Inst) {
    exists k, r :: 0 <= k <= |es| && MapsTo(Run(INITIAL, es[..k]), r, i)
  }

  predicate MapsTo(s: State, r: Room, i: Inst) {
    r in s.rooms && s.rooms[r] == i
  }

  lemma {:induction false} RunSnoc(s: State, es: seq<Event>, e: Event)
    ensures Run(s, es + [e]) == Step(Run(s, es), e)
    decreases |es|
  {
    hide Step;
    if es == [] {
      assert es + [e] == [e] && [e][1..] == [];
      assert Run(s, [e]) == Run(Step(s, e), []);
    } else {
      assert (es + [e])[1..] == es[1..] + [e];
      RunSnoc(Step(s, es[0]), es[1..], e);
    }
  }

  /** An instance is started in the very step that maps it; no other step starts anything. */
  lemma StartedWhenMapped(s: State, e: Event, i: Inst)
    requires Inv(s)
    ensures At(Step(s, e), i).starts == 1 <==> At(s, i).starts == 1 || exists r :: MapsTo(Step(s, e), r, i)
    ensures i in s.instances ==> i in Step(s, e).instances
  {
    hide Join, Leave, Trim, WellFormed, Inv;
    StepKeeps(s, e);
    StartedIfMapped(Step(s, e), i);
    match e
    case Message(c, isText, payload, roomValid) =>
      if isText && WellFormed(Trim(payload)) { JoinStarts(s, c, Trim(payload), roomValid, i); }
    case ServerClose(c) => if c in s.closing { LeaveStartsNothing(s, c, s.closing[c], i); }
    case _ =>
  }

  lemma StartedIfMapped(s: State, i: Inst)
    requires Inv(s)
    ensures forall r :: MapsTo(s, r, i) ==> At(s, i).starts == 1
  {
    forall r | MapsTo(s, r, i) ensures At(s, i).starts == 1 {
      assert MappedOk(s, r);
    }
  }

  lemma LeaveStartsNothing(s: State, c: Conn, r: Room, i: Inst)
    ensures At(Leave(s, c, r), i).starts == At(s, i).starts
    ensures i in s.instances ==> i in Leave(s, c, r).instances
  {
  }

  lemma JoinStarts(s: State, c: Conn, r: Room, roomValid: bool, i: Inst)
    requires Inv(s)
    ensures var t := Join(s, c, r, roomValid);
            (At(t, i).starts == At(s, i).starts || MapsTo(t, r, i)) && (i in s.instances ==> i in t.instances)
  {
    hide Leave, TagOf, Inv;
    FallThroughUnreachable(s, c, r);
    LeaveStartsNothing(s, c, Bound(s, c), i);
    BindLater(s, c, r);
    MovedKeeps(s, c, r);
    Numbered(Moved(s, c, r), i);
  }

  lemma {:induction false} StartedIffMapped(es: seq<Event>, i: Inst)
    ensures At(Run(INITIAL, es), i).starts == 1 <==> EverMapped(es, i)
    decreases |es|
  {
    hide Step, Inv, At, MapsTo;
    NothingYet(i);
    RunKeeps(INITIAL, es);
    assert es[..|es|] == es;
    if es == [] {
      assert forall k :: 0 <= k <= |es| ==> es[..k] == [];
    } else {
      var n := |es| - 1;
      var before := es[..n];
      assert es == before + [es[n]];
      RunSnoc(INITIAL, before, es[n]);
      RunKeeps(INITIAL, before);
      StartedIffMapped(before, i);
      StartedWhenMapped(Run(INITIAL, before), es[n], i);
      assert forall k :: 0 <= k <= n ==> before[..k] == es[..k];
    }
  }

  lemma NothingYet(i: Inst)
    ensures Inv(INITIAL) && At(INITIAL, i).starts == 0 && forall r :: !MapsTo(INITIAL, r, i)
  {
  }

  /** The event at `n` is one of those that `a` picks out. */
  ghost predicate HappensAt(es: seq<Event>, n: nat, a: (State, Event) -> bool) {
    n < |es| && a(Run(INITIAL, es[..n]), es[n])
  }

  /** There has been an event of kind `a`, and none of kind `b` since. */
  ghost predicate Since(es: seq<Event>, a: (State, Event) -> bool, b: (State, Event) -> bool) {
    exists n: nat :: HappensAt(es, n, a) && forall m: nat :: n < m ==> !HappensAt(es, m, b)
  }

  lemma SinceSnoc(es: seq<Event>, e: Event, a: (State, Event) -> bool, b: (State, Event) -> bool)
    ensures var s := Run(INITIAL, es); Since(es + [e], a, b) <==> a(s, e) || (Since(es, a, b) && !b(s, e))
  {
    hide Run;
    var s, fs, k := Run(INITIAL, es), es + [e], |es|;
    assert fs[k] == e && fs[..k] == es;
    forall n: nat | n < k
      ensures HappensAt(fs, n, a) == HappensAt(es, n, a) && HappensAt(fs, n, b) == HappensAt(es, n, b)
    {
      assert fs[n] == es[n] && fs[..n] == es[..n];
    }
    assert HappensAt(fs, k, a) == a(s, e) && HappensAt(fs, k, b) == b(s, e);
    if Since(fs, a, b) && !a(s, e) {
      var n: nat :| HappensAt(fs, n, a) && forall m: nat :: n < m ==> !HappensAt(fs, m, b);
      assert n < k && HappensAt(es, n, a);
      forall m: nat | n < m ensures !HappensAt(es, m, b) {
        assert m < k ==> HappensAt(fs, m, b) == HappensAt(es, m, b);
      }
    }
    if Since(es, a, b) && !b(s, e) {
      var n: nat :| HappensAt(es, n, a) && forall m: nat :: n < m ==> !HappensAt(es, m, b);
      forall m: nat | n < m ensures !HappensAt(fs, m, b) {
        assert m < k ==> HappensAt(fs, m, b) == HappensAt(es, m, b);
      }
    }
    if a(s, e) {
      forall m: nat | k < m ensures !HappensAt(fs, m, b) {}
    }
  }

  /** What `a` brings about and `b` ends holds after a run exactly if `a` has happened, and `b` not since. */
  lemma {:induction false} HoldsSince(es: seq<Event>, p: State -> bool,
                                      a: (State, Event) -> bool, b: (State, Event) -> bool)
    requires !p(INITIAL)
    requires forall s, e :: Inv(s) ==> (p(Step(s, e)) <==> a(s, e) || (p(s) && !b(s, e)))
    ensures p(Run(INITIAL, es)) <==> Since(es, a, b)
    decreases |es|
  {
    hide Step, Inv, Since;
    if es == [] {
      NeverSince(a, b);
    } else {
      var before, e := es[..|es| - 1], es[|es| - 1];
      assert es == before + [e];
      InitiallyInv();
      RunKeeps(INITIAL, before);
      RunSnoc(INITIAL, before, e);
      SinceSnoc(before, e, a, b);
      HoldsSince(before, p, a, b);
    }
  }

  lemma NeverSince(a: (State, Event) -> bool, b: (State, Event) -> bool)
    ensures !Since([], a, b)
  {
  }

  lemma InitiallyInv()
    ensures Inv(INITIAL)
  {
  }

  /** What holds after every run: of connections, of instances, and of the rooms there are. */
  lemma EveryRun(es: seq<Event>)
    ensures var s := Run(INITIAL, es);
            && (forall c, q, r :: Listens(s, c, q) && Listens(s, c, r) ==> q == r)
            && (forall c, r :: Listens(s, c, r) ==> Bound(s, c) == r)
            && (forall i :: i in s.instances ==>
                  var x := s.instances[i];
                  && x.starts == (if EverMapped(es, i) then 1 else 0)
                  && x.closes <= x.starts && (x.closes == 1 ==> x.listeners == {}))
            && (forall r :: r in s.rooms ==> MappedOk(s, r))
  {
    hide EverMapped;
    RunKeeps(INITIAL, es);
    var s := Run(INITIAL, es);
    forall c, q, r | Listens(s, c, q) && Listens(s, c, r) ensures q == r {
      BoundWhereListening(s, c, q);
      BoundWhereListening(s, c, r);
    }
    forall i | i in s.instances ensures s.instances[i].starts == if EverMapped(es, i) then 1 else 0 {
      StartedIffMapped(es, i);
    }
  }

  /** An instance made for a room that turns out not to be valid is never mapped, started or closed. */
  lemma InvalidRoomNeverStarts(s: State, c: Conn, payload: string, later: seq<Event>)
    requires Inv(s)
    ensures var t := Step(s, Message(c, true, payload, false));
            t.made > s.made ==>
              && t.made == s.made + 1 && Unmapped(t, s.made)
              && At(Run(t, later), s.made).starts == 0 && At(Run(t, later), s.made).closes == 0
  {
    hide Inv, Trim, WellFormed, Leave, TagOf, Run;
    var e := Message(c, true, payload, false);
    var t := Step(s, e);
    StepKeeps(s, e);
    if t.made > s.made {
      MadeInvalid(s, c, Trim(payload));
      UnmappedIsLeftAlone(t, later, s.made);
    }
  }

  lemma MadeInvalid(s: State, c: Conn, r: Room)
    requires Inv(s) && Join(s, c, r, false).made > s.made
    ensures var t := Join(s, c, r, false);
            t.made == s.made + 1 && Unmapped(t, s.made) && At(t, s.made) == Instance({}, 0, 0)
  {
    hide Leave, TagOf, Inv;
    MovedKeeps(s, c, r);
    BindLater(s, c, r);
    LeaveMakesNothing(s, c, Bound(s, c));
    MakeKeeps(Moved(s, c, r));
  }

  lemma LeaveMakesNothing(s: State, c: Conn, r: Room)
    ensures Leave(s, c, r).made == s.made
  {
  }

  // ---------------------------------------------------------------- rooms stay inhabited

  ghost predicate Inhabited(s: State) {
    forall r :: r in s.rooms ==> At(s, s.rooms[r]).listeners != {}
  }

  /** A mapped room without listeners. */
  predicate Deserted(s: State, r: Room) {
    r in s.rooms && At(s, s.rooms[r]).listeners == {}
  }

  /** A `publish` that reaches nobody in room `r`. */
  predicate Empties(s: State, e: Event, r: Room) {
    e.Publish? && r in s.rooms && s.rooms[r] == e.i && At(s, e.i).listeners <= e.failed
  }

  /**
   What ends that a room is deserted. It is entered, by a connection that was not bound to it; or it is
   closed, since a connection that was bound to it names another or closes, or the platform closes.
   */
  predicate Revives(s: State, e: Event, r: Room) {
    match e
    case Message(c, isText, payload, _) =>
      isText && WellFormed(Trim(payload)) && (Bound(s, c) == r <==> Trim(payload) != r)
    case ServerClose(c) => ClosesIn(s, c, r)
    case PlatformClose(room) => room == r
    case Publish(_, _) => false
  }

  /** Exactly a `publish` that reaches nobody makes a room deserted; it stays so until it is entered or closed. */
  lemma DesertedByStep(s: State, e: Event, r: Room)
    requires Inv(s)
    ensures Deserted(Step(s, e), r) <==> Empties(s, e, r) || (Deserted(s, r) && !Revives(s, e, r))
  {
    hide Inv, Join, Leave, Trim, WellFormed;
    match e
    case Message(c, isText, payload, roomValid) =>
      if isText && WellFormed(Trim(payload)) { JoinDeserts(s, c, Trim(payload), roomValid, r); }
    case ServerClose(c) => if c in s.closing { LeaveDeserts(s, c, s.closing[c], r); }
    case PlatformClose(room) =>
    case Publish(i, failed) =>
      OneRoomEach(s, r, r);
      NobodyLeft(At(s, i).listeners, failed);
  }

  lemma NobodyLeft(a: set<Conn>, b: set<Conn>)
    ensures a - b == {} <==> a <= b
  {
    assert forall c :: c in a && c !in b ==> c in a - b;
  }

  lemma LeaveDeserts(s: State, c: Conn, q: Room, r: Room)
    requires Inv(s)
    ensures Deserted(Leave(s, c, q), r) <==> Deserted(s, r) && q != r
  {
    OneRoomEach(s, q, r);
    if q == r && Deserted(s, r) { assert At(s, s.rooms[r]).listeners - {c} == {}; }
  }

  lemma JoinDeserts(s: State, c: Conn, q: Room, roomValid: bool, r: Room)
    requires Inv(s)
    ensures Deserted(Join(s, c, q, roomValid), r) <==> Deserted(s, r) && !(Bound(s, c) == r <==> q != r)
  {
    hide Inv, Leave, Arrive;
    if !(Bound(s, c) == q && q in s.rooms) {
      MovedKeeps(s, c, q);
      BindLater(s, c, q);
      LeaveDeserts(s, c, Bound(s, c), r);
      ArriveDeserts(Moved(s, c, q), c, q, roomValid, r);
    }
  }

  lemma ArriveDeserts(s: State, c: Conn, q: Room, roomValid: bool, r: Room)
    requires Inv(s)
    ensures Deserted(Arrive(s, c, q, roomValid), r) <==> Deserted(s, r) && q != r
  {
    hide Inv, TagOf;
    MakeKeeps(s);
    OneRoomEach(s, q, r);
    OneRoomEach(s, r, r);
  }

  /** One step keeps all rooms inhabited exactly if it is not a `publish` that reaches nobody in one of them. */
  lemma StaysInhabited(s: State, e: Event)
    requires Inv(s) && Inhabited(s)
    ensures Inhabited(Step(s, e)) <==> !exists r :: Empties(s, e, r)
  {
    hide Inv, Step, Empties, Revives;
    var t := Step(s, e);
    forall r ensures Deserted(t, r) <==> Empties(s, e, r) {
      DesertedByStep(s, e, r);
      assert !Deserted(s, r);
    }
    if !Inhabited(t) {
      var r :| r in t.rooms && At(t, t.rooms[r]).listeners == {};
      assert Deserted(t, r);
    }
  }

  /** After any run, a room is deserted exactly if a `publish` reached nobody in it, and neither happened since. */
  lemma DesertedAfterRun(es: seq<Event>, r: Room)
    ensures Deserted(Run(INITIAL, es), r)
       <==> Since(es, (s, e) => Empties(s, e, r), (s, e) => Revives(s, e, r))
  {
    hide Step, Inv, Empties, Revives, Since, Run;
    forall s, e | Inv(s)
      ensures Deserted(Step(s, e), r) <==> Empties(s, e, r) || (Deserted(s, r) && !Revives(s, e, r))
    {
      DesertedByStep(s, e, r);
    }
    HoldsSince(es, s => Deserted(s, r), (s, e) => Empties(s, e, r), (s, e) => Revives(s, e, r));
  }

  /** The event at `n` is a `publish` that reaches nobody in some room. */
  ghost predicate EmptiesAt(s: State, es: seq<Event>, n: nat) {
    n < |es| && exists r :: Empties(Run(s, es[..n]), es[n], r)
  }

  ghost predicate InhabitedAt(s: State, es: seq<Event>, n: nat) {
    n <= |es| ==> Inhabited(Run(s, es[..n]))
  }

  lemma RunOneMore(s: State, es: seq<Event>, n: nat)
    requires Inv(s) && n < |es|
    ensures Inv(Run(s, es[..n])) && Run(s, es[..n + 1]) == Step(Run(s, es[..n]), es[n])
  {
    hide Step, Inv, Run;
    RunKeeps(s, es[..n]);
    RunSnoc(s, es[..n], es[n]);
    assert es[..n + 1] == es[..n] + [es[n]];
  }

  lemma {:induction false} InhabitedUpTo(s: State, es: seq<Event>, n: nat)
    requires Inv(s) && Inhabited(s) && n <= |es| && forall m: nat :: m < n ==> !EmptiesAt(s, es, m)
    ensures Inhabited(Run(s, es[..n]))
    decreases n
  {
    hide Step, Inv, Inhabited, Empties;
    if n > 0 {
      InhabitedUpTo(s, es, n - 1);
      RunOneMore(s, es, n - 1);
      StaysInhabited(Run(s, es[..n - 1]), es[n - 1]);
      assert !EmptiesAt(s, es, n - 1);
    }
  }

  /** All rooms are inhabited after every part of a run exactly if no `publish` in it reaches nobody in a room. */
  lemma InhabitedThroughout(s: State, es: seq<Event>)
    requires Inv(s) && Inhabited(s)
    ensures (forall n: nat :: InhabitedAt(s, es, n)) <==> forall n: nat :: !EmptiesAt(s, es, n)
  {
    hide Step, Inv, Inhabited, Empties, Run;
    if forall n: nat :: InhabitedAt(s, es, n) {
      forall n: nat ensures !EmptiesAt(s, es, n) {
        if n < |es| {
          RunOneMore(s, es, n);
          assert InhabitedAt(s, es, n) && InhabitedAt(s, es, n + 1);
          StaysInhabited(Run(s, es[..n]), es[n]);
        }
      }
    }
    if forall n: nat :: !EmptiesAt(s, es, n) {
      forall n: nat ensures InhabitedAt(s, es, n) {
        if n <= |es| { InhabitedUpTo(s, es, n); }
      }
    }
  }

  /** As long as no send fails, every mapped room has a listener. */
  lemma InhabitedUnlessSendsFail(s: State, es: seq<Event>)
    requires Inv(s) && Inhabited(s)
    requires forall k :: 0 <= k < |es| && es[k].Publish? ==> es[k].failed == {}
    ensures Inhabited(Run(s, es))
  {
    hide Step, Inv, Run;
    SomebodyReached(s, es, |es|);
    assert es[..|es|] == es;
  }

  lemma {:induction false} SomebodyReached(s: State, es: seq<Event>, n: nat)
    requires Inv(s) && Inhabited(s) && n <= |es|
    requires forall k :: 0 <= k < |es| && es[k].Publish? ==> es[k].failed == {}
    ensures Inhabited(Run(s, es[..n]))
    decreases n
  {
    hide Step, Inv;
    if n > 0 {
      SomebodyReached(s, es, n - 1);
      RunOneMore(s, es, n - 1);
      StaysInhabited(Run(s, es[..n - 1]), es[n - 1]);
    } else {
      assert es[..0] == [];
    }
  }

  lemma OneRoomEach(s: State, q: Room, r: Room)
    requires Inv(s)
    ensures q in s.rooms && r in s.rooms && s.rooms[q] == s.rooms[r] ==> q == r
    ensures q in s.rooms ==> MappedOk(s, q)
  {
  }

  // ---------------------------------------------------------------- gone is gone

  ghost predicate Unmapped(s: State, i: Inst) {
    i in s.instances && forall r :: r in s.rooms ==> s.rooms[r] != i
  }

  /** An instance that is no longer mapped is left alone, whatever comes: never mapped, started or closed again. */
  lemma {:induction false} UnmappedIsLeftAlone(s: State, es: seq<Event>, i: Inst)
    requires Inv(s) && Unmapped(s, i)
    ensures LeftAlone(s, Run(s, es), i)
    decreases |es|
  {
    if es != [] {
      hide Inv, Step, Unmapped;
      StepKeeps(s, es[0]);
      StepLeavesAlone(s, es[0], i);
      UnmappedIsLeftAlone(Step(s, es[0]), es[1..], i);
    }
  }

  /** Between `s` and `t` nothing has happened to the unmapped instance but that listeners may have gone. */
  ghost predicate LeftAlone(s: State, t: State, i: Inst) {
    && Unmapped(s, i) && Unmapped(t, i) && At(t, i).starts == At(s, i).starts && At(t, i).closes == At(s, i).closes
    && At(t, i).listeners <= At(s, i).listeners
  }

  lemma StepLeavesAlone(s: State, e: Event, i: Inst)
    requires Inv(s) && Unmapped(s, i)
    ensures LeftAlone(s, Step(s, e), i)
  {
    hide Join, Leave, Trim, WellFormed, Inv;
    match e
    case Message(c, isText, payload, roomValid) =>
      if isText && WellFormed(Trim(payload)) { JoinLeavesAlone(s, c, Trim(payload), roomValid, i); }
    case ServerClose(c) => if c in s.closing { LeaveLeavesAlone(s, c, s.closing[c], i); }
    case _ =>
  }

  lemma LeaveLeavesAlone(s: State, c: Conn, r: Room, i: Inst)
    requires Unmapped(s, i)
    ensures LeftAlone(s, Leave(s, c, r), i)
  {
  }

  lemma JoinLeavesAlone(s: State, c: Conn, r: Room, roomValid: bool, i: Inst)
    requires Inv(s) && Unmapped(s, i)
    ensures LeftAlone(s, Join(s, c, r, roomValid), i)
  {
    hide Leave, TagOf, Inv;
    FallThroughUnreachable(s, c, r);
    LeaveLeavesAlone(s, c, Bound(s, c), i);
    BindLater(s, c, r);
    MovedKeeps(s, c, r);
    MakeKeeps(Moved(s, c, r));
    Numbered(Moved(s, c, r), i);
  }

  lemma Numbered(s: State, i: Inst)
    requires Inv(s)
    ensures i in s.instances ==> i < s.made
  {
  }

  // ---------------------------------------------------------------- who listens where

  /** Leaving changes nothing for others; the room goes, and its instance is closed, exactly if nobody else is in it. */
  lemma LeaveIsExact(s: State, c: Conn, r: Room)
    requires Inv(s)
    ensures var t := Leave(s, c, r);
            && (forall d, q :: Listens(t, d, q) <==> Listens(s, d, q) && !(d == c && q == r))
            && (forall q :: q in t.rooms <==> q in s.rooms && !(q == r && At(s, s.rooms[r]).listeners <= {c}))
            && (r in s.rooms ==>
                  At(t, s.rooms[r]).closes == if At(s, s.rooms[r]).listeners <= {c} then 1 else 0)
  {
    var t := Leave(s, c, r);
    if r in s.rooms {
      OneRoomEach(s, r, r);
      assert At(s, s.rooms[r]).listeners - {c} == {} <==> At(s, s.rooms[r]).listeners <= {c};
      forall d, q ensures Listens(t, d, q) <==> Listens(s, d, q) && !(d == c && q == r) {
        OneRoomEach(s, q, r);
      }
    }
  }

  /** Whether a connection that names a room ends up listening in it. */
  ghost predicate Joins(s: State, c: Conn, r: Room, roomValid: bool) {
    if r in s.rooms then Bound(s, c) == r ==> Listens(s, c, r)
    else TagOf(r) in PLATFORMS && roomValid
  }

  lemma ArriveIsExact(s: State, c: Conn, r: Room, roomValid: bool)
    requires Inv(s) && forall q :: !Listens(s, c, q)
    ensures var t := Arrive(s, c, r, roomValid);
            forall d, q :: Listens(t, d, q) <==>
              if d == c && q == r then r in s.rooms || (TagOf(r) in PLATFORMS && roomValid) else Listens(s, d, q)
  {
    hide TagOf;
    var t := Arrive(s, c, r, roomValid);
    MakeKeeps(s);
    forall d, q
      ensures Listens(t, d, q) <==>
                if d == c && q == r then r in s.rooms || (TagOf(r) in PLATFORMS && roomValid) else Listens(s, d, q)
    {
      OneRoomEach(s, q, r);
      assert !Listens(s, c, r);
    }
  }

  /** A message that names a room moves its sender there, or nowhere; all others stay where they are. */
  lemma MessageIsExact(s: State, c: Conn, payload: string, roomValid: bool)
    requires Inv(s) && WellFormed(Trim(payload))
    ensures var r := Trim(payload);
            var t := Step(s, Message(c, true, payload, roomValid));
            && Bound(t, c) == r
            && forall d, q :: Listens(t, d, q) <==>
                 if d == c then q == r && Joins(s, c, r, roomValid) else Listens(s, d, q)
  {
    hide Arrive, Leave, TagOf, Inv, Trim, WellFormed;
    var r := Trim(payload);
    var t := Join(s, c, r, roomValid);
    if Bound(s, c) == r && r in s.rooms {
      forall q | Listens(s, c, q) ensures q == r { BoundWhereListening(s, c, q); }
    } else {
      MovedKeeps(s, c, r);
      BindLater(s, c, r);
      LeaveIsExact(s, c, Bound(s, c));
      ArriveIsExact(Moved(s, c, r), c, r, roomValid);
      ArriveBinds(Moved(s, c, r), c, r, roomValid);
      forall d, q | d != c ensures Listens(Moved(s, c, r), d, q) <==> Listens(s, d, q) {
        assert Listens(Leave(s, c, Bound(s, c)), d, q) <==> Listens(s, d, q);
      }
    }
  }

  lemma ArriveBinds(s: State, c: Conn, r: Room, roomValid: bool)
    ensures Arrive(s, c, r, roomValid).bound == s.bound
  {
  }

  /** Step `e`, which is no message, ends that `d` listens in `q`. */
  ghost predicate Loses(s: State, e: Event, d: Conn, q: Room)
    requires q in s.rooms
  {
    match e
    case Message(_, _, _, _) => false
    case ServerClose(c) => d == c && c in s.closing && s.closing[c] == q
    case PlatformClose(room) => q == room
    case Publish(i, failed) => s.rooms[q] == i && d in failed
  }

  /** The other steps only take listeners away: a closing connection, a closed room, those that could not be reached. */
  lemma OtherStepsAreExact(s: State, e: Event)
    requires Inv(s) && !e.Message?
    ensures forall d, q :: Listens(Step(s, e), d, q) <==> Listens(s, d, q) && !Loses(s, e, d, q)
  {
    hide Leave, Inv;
    if e.ServerClose? && e.c in s.closing { LeaveIsExact(s, e.c, s.closing[e.c]); }
    if e.Publish? {
      forall d, q | Listens(s, d, q) ensures s.rooms[q] in s.instances { OneRoomEach(s, q, q); }
    }
  }

  /** A text in the right format: more than three characters, the first '_' neither at the front nor at the end. */
  lemma WellFormedIs(t: string)
    ensures WellFormed(t) <==> |t| > 3 && t[0] != '_' && exists k :: 0 < k < |t| - 1 && t[k] == '_'
  {
    if |t| > 3 && t[0] != '_' && exists k :: 0 < k < |t| - 1 && t[k] == '_' {
      var k :| 0 < k < |t| - 1 && t[k] == '_';
      NoneBefore(t, k);
    }
  }

  lemma {:induction false} NoneBefore(t: string, k: nat)
    requires k < |t| && t[k] == '_'
    ensures Underscore(t) <= k
    decreases k
  {
    if k > 0 { NoneBefore(t[1..], k - 1); }
  }

  /** Any other message, and any that is not text, changes nothing at all: nobody leaves, nobody is bound anew. */
  lemma OtherMessagesDoNothing(s: State, c: Conn, isText: bool, payload: string, roomValid: bool)
    requires var t := Trim(payload);
             !isText || |t| <= 3 || t[0] == '_' || forall k :: 0 < k < |t| - 1 ==> t[k] != '_'
    ensures Step(s, Message(c, isText, payload, roomValid)) == s
  {
    hide Trim, WellFormed;
    WellFormedIs(Trim(payload));
  }

  /** The room that an event makes its connection leave, if it is mapped. */
  predicate LeftBy(s: State, e: Event, q: Room) {
    match e
    case Message(c, isText, payload, _) =>
      isText && WellFormed(Trim(payload)) && Bound(s, c) == q && q in s.rooms && Trim(payload) != q
    case ServerClose(c) => ClosesIn(s, c, q) && q in s.rooms
    case _ => false
  }

  function LeaverOf(e: Event): set<Conn> {
    match e
    case Message(c, _, _, _) => {c}
    case ServerClose(c) => {c}
    case _ => {}
  }

  /** An instance is closed exactly by the step that leaves its room empty, and by no other. */
  lemma ClosedByLeaving(s: State, e: Event, q: Room)
    requires Inv(s) && q in s.rooms
    ensures At(Step(s, e), s.rooms[q]).closes
         == if LeftBy(s, e, q) && At(s, s.rooms[q]).listeners <= LeaverOf(e) then 1 else 0
  {
    hide Inv, Join, Leave, Trim, WellFormed;
    OneRoomEach(s, q, q);
    match e
    case Message(c, isText, payload, roomValid) =>
      if isText && WellFormed(Trim(payload)) { JoinCloses(s, c, Trim(payload), roomValid, q); }
    case ServerClose(c) => if c in s.closing { LeaveCloses(s, c, s.closing[c], q); }
    case _ =>
  }

  lemma LeaveCloses(s: State, c: Conn, r: Room, q: Room)
    requires Inv(s) && q in s.rooms
    ensures At(Leave(s, c, r), s.rooms[q]).closes == if r == q && At(s, s.rooms[q]).listeners <= {c} then 1 else 0
    ensures s.rooms[q] in Leave(s, c, r).instances && s.rooms[q] < s.made == Leave(s, c, r).made
  {
    OneRoomEach(s, q, r);
    OneRoomEach(s, r, r);
    NobodyLeft(At(s, s.rooms[q]).listeners, {c});
  }

  lemma JoinCloses(s: State, c: Conn, r: Room, roomValid: bool, q: Room)
    requires Inv(s) && q in s.rooms
    ensures At(Join(s, c, r, roomValid), s.rooms[q]).closes
         == if Bound(s, c) == q && r != q && At(s, s.rooms[q]).listeners <= {c} then 1 else 0
  {
    hide Inv, Leave, TagOf, Arrive;
    OneRoomEach(s, q, q);
    LeaveCloses(s, c, Bound(s, c), q);
    BindLater(s, c, r);
    ArriveCloses(Moved(s, c, r), c, r, roomValid, s.rooms[q]);
  }

  lemma ArriveCloses(s: State, c: Conn, r: Room, roomValid: bool, i: Inst)
    requires i in s.instances && i < s.made
    ensures At(Arrive(s, c, r, roomValid), i).closes == At(s, i).closes
  {
    hide TagOf;
  }

  /** A message of `c` that opens room `r`: it names a valid room that nobody has open. */
  predicate Opens(s: State, e: Event, c: Conn, r: Room) {
    && e.Message? && e.c == c && e.isText && WellFormed(Trim(e.payload)) && Trim(e.payload) == r
    && r !in s.rooms && TagOf(r) in PLATFORMS && e.roomValid
  }

  /** Event `e` opens room `q`. */
  predicate OpenedBy(s: State, e: Event, q: Room) {
    e.Message? && Opens(s, e, e.c, q)
  }

  /** Event `e` ends that room `q` is mapped: the last listener leaves, or the platform closes. */
  predicate EndedBy(s: State, e: Event, q: Room) {
    q in s.rooms && ((LeftBy(s, e, q) && At(s, s.rooms[q]).listeners <= LeaverOf(e)) || e == PlatformClose(q))
  }

  /** Which rooms are mapped after a step; a room that stays keeps its instance. */
  lemma MappedByStep(s: State, e: Event, q: Room)
    requires Inv(s)
    ensures q in Step(s, e).rooms <==> OpenedBy(s, e, q) || (q in s.rooms && !EndedBy(s, e, q))
    ensures q in s.rooms && q in Step(s, e).rooms ==> Step(s, e).rooms[q] == s.rooms[q]
  {
    hide Inv, Join, Leave, Trim, WellFormed, TagOf;
    match e
    case Message(c, isText, payload, roomValid) =>
      if isText && WellFormed(Trim(payload)) { JoinMaps(s, c, Trim(payload), roomValid, q); }
    case ServerClose(c) => if c in s.closing { LeaveMaps(s, c, s.closing[c], q); }
    case _ =>
  }

  lemma LeaveMaps(s: State, c: Conn, r: Room, q: Room)
    requires Inv(s)
    ensures var t := Leave(s, c, r);
            && (q in t.rooms <==> q in s.rooms && !(q == r && At(s, s.rooms[q]).listeners <= {c}))
            && (q in t.rooms ==> t.rooms[q] == s.rooms[q])
  {
    if r in s.rooms { NobodyLeft(At(s, s.rooms[r]).listeners, {c}); }
  }

  lemma JoinMaps(s: State, c: Conn, r: Room, roomValid: bool, q: Room)
    requires Inv(s)
    ensures var t := Join(s, c, r, roomValid);
            var opens := r !in s.rooms && TagOf(r) in PLATFORMS && roomValid;
            var ends := q in s.rooms && Bound(s, c) == q && r != q && At(s, s.rooms[q]).listeners <= {c};
            && (q in t.rooms <==> (opens && q == r) || (q in s.rooms && !ends))
            && (q in s.rooms && q in t.rooms ==> t.rooms[q] == s.rooms[q])
  {
    hide Inv, Leave, TagOf;
    FallThroughUnreachable(s, c, r);
    LeaveMaps(s, c, Bound(s, c), q);
    LeaveMaps(s, c, Bound(s, c), r);
    BindLater(s, c, r);
  }

  /** A message that names a room binds its sender to it; nothing else binds or unbinds anybody. */
  lemma BoundByStep(s: State, e: Event, d: Conn)
    ensures Bound(Step(s, e), d)
         == if e.Message? && e.c == d && e.isText && WellFormed(Trim(e.payload)) then Trim(e.payload) else Bound(s, d)
  {
    hide Join, Leave, Trim, WellFormed;
    match e
    case Message(c, isText, payload, roomValid) =>
      if isText && WellFormed(Trim(payload)) { JoinBinds(s, c, Trim(payload), roomValid, d); }
    case ServerClose(c) => if c in s.closing { LeaveBindsNobody(s, c, s.closing[c]); }
    case _ =>
  }

  lemma LeaveBindsNobody(s: State, c: Conn, r: Room)
    ensures Leave(s, c, r).bound == s.bound
  {
  }

  lemma JoinBinds(s: State, c: Conn, r: Room, roomValid: bool, d: Conn)
    ensures Bound(Join(s, c, r, roomValid), d) == if d == c then r else Bound(s, d)
  {
    hide Leave, Arrive;
    BindLater(s, c, r);
    ArriveBinds(Moved(s, c, r), c, r, roomValid);
  }

  /** An instance that is not mapped loses listeners only by its own `publish`, and gains none. */
  lemma UnmappedListeners(s: State, e: Event, i: Inst)
    requires Inv(s) && Unmapped(s, i)
    ensures At(Step(s, e), i).listeners == At(s, i).listeners - if e.Publish? && e.i == i then e.failed else {}
  {
    hide Inv, Join, Leave, Trim, WellFormed;
    match e
    case Message(c, isText, payload, roomValid) =>
      if isText && WellFormed(Trim(payload)) { JoinSparesUnmapped(s, c, Trim(payload), roomValid, i); }
    case ServerClose(c) => if c in s.closing { LeaveSparesUnmapped(s, c, s.closing[c], i); }
    case _ =>
  }

  lemma LeaveSparesUnmapped(s: State, c: Conn, r: Room, i: Inst)
    requires Unmapped(s, i)
    ensures At(Leave(s, c, r), i) == At(s, i) && Unmapped(Leave(s, c, r), i) && Leave(s, c, r).made == s.made
  {
  }

  lemma JoinSparesUnmapped(s: State, c: Conn, r: Room, roomValid: bool, i: Inst)
    requires Inv(s) && Unmapped(s, i)
    ensures At(Join(s, c, r, roomValid), i) == At(s, i)
  {
    hide Inv, Leave, TagOf;
    LeaveSparesUnmapped(s, c, Bound(s, c), i);
    BindLater(s, c, r);
    FallThroughUnreachable(s, c, r);
    Numbered(s, i);
  }

  // ---------------------------------------------------------------- which payloads name a room

  lemma SpacesAre(ch: char)
    ensures IsSpace(ch) <==> ch as int in {32, 9, 10, 11, 12, 13}
  {
  }

  predicate Blank(s: string) {
    forall k :: 0 <= k < |s| ==> IsSpace(s[k])
  }

  lemma {:induction false} TrimsLeft(a: string, t: string)
    requires Blank(a) && t != [] && !IsSpace(t[0])
    ensures TrimLeft(a + t) == t
    decreases |a|
  {
    if a == [] {
      assert a + t == t;
    } else {
      assert (a + t)[1..] == a[1..] + t;
      TrimsLeft(a[1..], t);
    }
  }

  lemma {:induction false} TrimsRight(t: string, b: string)
    requires Blank(b) && t != [] && !IsSpace(t[|t| - 1])
    ensures TrimRight(t + b) == t
    decreases |b|
  {
    if b == [] {
      assert t + b == t;
    } else {
      assert (t + b)[..|t + b| - 1] == t + b[..|b| - 1];
      TrimsRight(t, b[..|b| - 1]);
    }
  }

  /** Whatever blanks stand around it, a payload names the room between them. */
  lemma PayloadNames(a: string, tag: string, id: string, b: string)
    requires Blank(a) && Blank(b) && tag != [] && id != [] && |tag| + |id| >= 3 && '_' !in tag
    requires !IsSpace(tag[0]) && !IsSpace(id[|id| - 1])
    ensures Trim(a + tag + "_" + id + b) == tag + "_" + id
    ensures WellFormed(tag + "_" + id) && TagOf(tag + "_" + id) == tag
  {
    var t := tag + "_" + id;
    assert a + tag + "_" + id + b == a + (t + b);
    assert (t + b)[0] == tag[0] && t[|t| - 1] == id[|id| - 1];
    TrimsLeft(a, t + b);
    TrimsRight(t, b);
    FirstUnderscore(tag, id);
  }

  lemma {:induction false} FirstUnderscore(tag: string, id: string)
    requires '_' !in tag
    ensures Underscore(tag + "_" + id) == |tag|
    decreases |tag|
  {
    var t := tag + "_" + id;
    if tag != [] {
      assert t[1..] == tag[1..] + "_" + id && t[0] == tag[0];
      FirstUnderscore(tag[1..], id);
    }
  }

  // ---------------------------------------------------------------- publishing in the middle of a handler

  function Pruned(s: State, i: Inst, failed: set<Conn>): State {
    Step(s, Publish(i, failed))
  }

  function Rebound(s: State, c: Conn, r: Room): State {
    s.(bound := s.bound[c := r])
  }

  function Erased(s: State, c: Conn, i: Inst): State {
    Put(s, i, At(s, i).(listeners := At(s, i).listeners - {c}))
  }

  /** The second half of leaving, which closes the instance if it finds no listeners. */
  function ClosedIfEmpty(s: State, r: Room): State
    requires r in s.rooms
  {
    var x := At(s, s.rooms[r]);
    if x.listeners != {} then s else Put(s, s.rooms[r], x.(closes := x.closes + 1)).(rooms := s.rooms - {r})
  }

  function Added(s: State, c: Conn, i: Inst): State {
    Put(s, i, At(s, i).(listeners := At(s, i).listeners + {c}))
  }

  function Opened(s: State, c: Conn, r: Room, i: Inst): State {
    s.(rooms := s.rooms[r := i], closing := s.closing[c := r])
  }

  function Started(s: State, i: Inst): State {
    Put(s, i, At(s, i).(starts := At(s, i).starts + 1))
  }

  /** Where in `on_server_message` a call of `publish` may fall: it takes only the lock of its own instance. */
  datatype Point = AfterBind | AfterErase | AfterLeave | BeforeAdd | AfterAdd | AfterOpen | AfterStart

  function AtPoint(here: Point, at: Point, s: State, i: Inst, failed: set<Conn>): State {
    if here == at then Pruned(s, i, failed) else s
  }

  /** The end of the handler: the instance is given its listener, mapped and started. */
  function Launched(s: State, c: Conn, r: Room, k: Inst, at: Point, i: Inst, failed: set<Conn>): State {
    var added := AtPoint(AfterAdd, at, Added(s, c, k), i, failed);
    var mapped := AtPoint(AfterOpen, at, Opened(added, c, r, k), i, failed);
    AtPoint(AfterStart, at, Started(mapped, k), i, failed)
  }

  /** The handler's second half, from asking whether the room is there. */
  function Arriving(s: State, c: Conn, r: Room, roomValid: bool, at: Point, i: Inst, failed: set<Conn>): State {
    if r in s.rooms then
      var k := s.rooms[r];
      var before := AtPoint(BeforeAdd, at, s, i, failed);
      if c !in At(s, k).listeners then AtPoint(AfterAdd, at, Added(before, c, k), i, failed)
      else Launched(before, c, r, k, at, i, failed)
    else if TagOf(r) !in PLATFORMS then s
    else
      var made := AtPoint(BeforeAdd, at, Make(s), i, failed);
      if !roomValid then made else Launched(made, c, r, s.made, at, i, failed)
  }

  /** The whole handler, for a connection that changes rooms, with a call of `publish` at one point. */
  function Interrupted(s: State, c: Conn, r: Room, roomValid: bool, at: Point, i: Inst, failed: set<Conn>): State {
    var from := Bound(s, c);
    var bound := AtPoint(AfterBind, at, Rebound(s, c, r), i, failed);
    var left := if from !in bound.rooms then bound
                else
                  var erased := AtPoint(AfterErase, at, Erased(bound, c, bound.rooms[from]), i, failed);
                  if from in erased.rooms then ClosedIfEmpty(erased, from) else erased;
    Arriving(AtPoint(AfterLeave, at, left, i, failed), c, r, roomValid, at, i, failed)
  }

  lemma LeaveInHalves(s: State, c: Conn, r: Room)
    requires r in s.rooms
    ensures ClosedIfEmpty(Erased(s, c, s.rooms[r]), r) == Leave(s, c, r)
  {
    var i, x := s.rooms[r], At(s, s.rooms[r]);
    var y := x.(listeners := x.listeners - {c});
    var z := y.(closes := y.closes + 1);
    assert s.instances[i := y][i := z] == s.instances[i := z];
  }

  lemma ErasuresCommute(s: State, c: Conn, j: Inst, i: Inst, failed: set<Conn>)
    requires j in s.instances
    ensures Pruned(Erased(s, c, j), i, failed) == Erased(Pruned(s, i, failed), c, j)
  {
    var x := At(s, j);
    assert x.listeners - {c} - failed == x.listeners - failed - {c};
    assert Pruned(Erased(s, c, j), i, failed).instances == Erased(Pruned(s, i, failed), c, j).instances;
  }

  lemma PrunedKeeps(s: State, i: Inst, failed: set<Conn>)
    ensures var t := Pruned(s, i, failed);
            t.rooms == s.rooms && t.bound == s.bound && t.made == s.made && t.instances.Keys == s.instances.Keys
    ensures forall j, c :: c in At(Pruned(s, i, failed), j).listeners ==> c in At(s, j).listeners
    ensures forall c, r :: Pruned(Rebound(s, c, r), i, failed) == Rebound(Pruned(s, i, failed), c, r)
  {
  }

  /** Adding a listener undoes that it could not be reached just before. */
  lemma AddingCommutes(s: State, c: Conn, k: Inst, i: Inst, failed: set<Conn>)
    requires k in s.instances
    ensures Added(Pruned(s, i, failed), c, k) == Pruned(Added(s, c, k), i, if i == k then failed - {c} else failed)
  {
    var t := Pruned(Added(s, c, k), i, if i == k then failed - {c} else failed);
    var x := At(s, k);
    assert x.listeners - failed + {c} == x.listeners + {c} - (failed - {c});
    assert Added(Pruned(s, i, failed), c, k).instances == t.instances;
  }

  lemma StartingCommutes(s: State, c: Conn, r: Room, k: Inst, i: Inst, failed: set<Conn>)
    requires k in s.instances
    ensures Opened(Pruned(s, i, failed), c, r, k) == Pruned(Opened(s, c, r, k), i, failed)
    ensures Started(Pruned(s, i, failed), k) == Pruned(Started(s, k), i, failed)
  {
    assert Started(Pruned(s, i, failed), k).instances == Pruned(Started(s, k), i, failed).instances;
  }

  lemma MakingCommutes(s: State, i: Inst, failed: set<Conn>)
    requires s.made !in s.instances
    ensures Make(Pruned(s, i, failed)) == Pruned(Make(s), i, failed)
  {
    var none: set<Conn> := {};
    assert none - failed == none;
    assert Make(Pruned(s, i, failed)).instances == Pruned(Make(s), i, failed).instances;
  }

  lemma EnterInSteps(s: State, c: Conn, r: Room, k: Inst)
    ensures Enter(s, c, r, k) == Started(Opened(Added(s, c, k), c, r, k), k)
  {
    assert Enter(s, c, r, k).instances == Started(Opened(Added(s, c, k), c, r, k), k).instances;
  }

  /** `t` is `s` after a `publish` of instance `i`, in which all of `failed`, but perhaps `c`, cannot be reached. */
  ghost predicate PublishedLater(s: State, t: State, c: Conn, i: Inst, failed: set<Conn>) {
    t == s || t == Pruned(s, i, failed) || t == Pruned(s, i, failed - {c})
  }

  lemma LaunchedLater(s: State, c: Conn, r: Room, k: Inst, at: Point, i: Inst, failed: set<Conn>)
    requires k in s.instances
    ensures PublishedLater(Enter(s, c, r, k), Launched(s, c, r, k, at, i, failed), c, i, failed)
    ensures PublishedLater(Enter(s, c, r, k), Enter(Pruned(s, i, failed), c, r, k), c, i, failed)
  {
    hide Pruned, Opened, Started, Enter, Added;
    EnterInSteps(s, c, r, k);
    EnterInSteps(Pruned(s, i, failed), c, r, k);
    AddingCommutes(s, c, k, i, failed);
    var added, f := Added(s, c, k), if i == k then failed - {c} else failed;
    AddedHas(s, c, r, k);
    StartingCommutes(added, c, r, k, i, failed);
    StartingCommutes(Opened(added, c, r, k), c, r, k, i, failed);
    StartingCommutes(added, c, r, k, i, f);
    StartingCommutes(Opened(added, c, r, k), c, r, k, i, f);
  }

  lemma LaunchedAtOnce(s: State, c: Conn, r: Room, k: Inst, at: Point, i: Inst, failed: set<Conn>)
    requires at !in {AfterAdd, AfterOpen, AfterStart}
    ensures Launched(s, c, r, k, at, i, failed) == Enter(s, c, r, k)
  {
    hide Opened, Started, Enter, Added;
    EnterInSteps(s, c, r, k);
  }

  lemma AddedHas(s: State, c: Conn, r: Room, k: Inst)
    ensures k in Added(s, c, k).instances && k in Opened(Added(s, c, k), c, r, k).instances
  {
  }

  /** A call of `publish` once the old room is left has the effect of one after the handler. */
  lemma PublishWhileArriving(s: State, c: Conn, r: Room, roomValid: bool, at: Point, i: Inst, failed: set<Conn>)
    requires Inv(s) && forall q :: !Listens(s, c, q)
    ensures PublishedLater(Arrive(s, c, r, roomValid), Arriving(s, c, r, roomValid, at, i, failed), c, i, failed)
    ensures PublishedLater(Arrive(s, c, r, roomValid), Arrive(Pruned(s, i, failed), c, r, roomValid), c, i, failed)
  {
    hide Pruned, Launched, Enter, Inv, TagOf, Make;
    OneRoomEach(s, r, r);
    PrunedKeeps(s, i, failed);
    assert !Listens(s, c, r);
    if r in s.rooms {
      AddingCommutes(s, c, s.rooms[r], i, failed);
    } else {
      Numbered(s, s.made);
      MakeHas(s);
      MakingCommutes(s, i, failed);
      LaunchedLater(Make(s), c, r, s.made, at, i, failed);
      if at == BeforeAdd { LaunchedAtOnce(Pruned(Make(s), i, failed), c, r, s.made, at, i, failed); }
    }
  }

  lemma MakeHas(s: State)
    ensures s.made in Make(s).instances
  {
  }

  lemma NoPointArriving(s: State, c: Conn, r: Room, roomValid: bool, at: Point, i: Inst, failed: set<Conn>)
    requires at in {AfterBind, AfterErase, AfterLeave}
    ensures Arriving(s, c, r, roomValid, at, i, failed) == Arrive(s, c, r, roomValid)
  {
    hide Pruned, Enter, TagOf, Opened, Started;
    if r in s.rooms { EnterInSteps(s, c, r, s.rooms[r]); }
    EnterInSteps(Make(s), c, r, s.made);
  }

  /** A call of `publish` between erasing a listener and counting the others has the effect of one before. */
  lemma PublishWhileLeaving(s: State, c: Conn, r: Room, i: Inst, failed: set<Conn>)
    requires r in s.rooms && s.rooms[r] in s.instances
    ensures var j, t := s.rooms[r], Pruned(s, i, failed);
            && Erased(s, c, j).rooms == Erased(t, c, j).rooms == Pruned(Erased(s, c, j), i, failed).rooms == s.rooms
            && t.rooms == s.rooms
            && ClosedIfEmpty(Erased(s, c, j), r) == Leave(s, c, r)
            && ClosedIfEmpty(Erased(t, c, j), r) == Leave(t, c, r)
            && ClosedIfEmpty(Pruned(Erased(s, c, j), i, failed), r) == Leave(t, c, r)
  {
    hide Pruned, Leave, ClosedIfEmpty;
    PrunedKeeps(s, i, failed);
    ErasuresCommute(s, c, s.rooms[r], i, failed);
    LeaveInHalves(s, c, r);
    LeaveInHalves(Pruned(s, i, failed), c, r);
  }

  /**
   A call of `publish` at any point of `on_server_message` has the effect of one before the handler
   or of one after it; in the latter case the sender itself may count as reached.
   */
  lemma PublishWhileJoining(s: State, c: Conn, r: Room, roomValid: bool, at: Point, i: Inst, failed: set<Conn>)
    requires Inv(s) && !(Bound(s, c) == r && r in s.rooms)
    ensures var t := Interrupted(s, c, r, roomValid, at, i, failed);
            || t == Join(Pruned(s, i, failed), c, r, roomValid)
            || PublishedLater(Join(s, c, r, roomValid), t, c, i, failed)
  {
    hide Pruned, Inv, Arrive, Arriving, Leave, Erased, ClosedIfEmpty, PublishedLater;
    var from, bound := Bound(s, c), Rebound(s, c, r);
    MovedKeeps(s, c, r);
    PrunedKeeps(s, i, failed);
    PrunedKeeps(bound, i, failed);
    OneRoomEach(s, from, from);
    if from in s.rooms { PublishWhileLeaving(bound, c, from, i, failed); } else { NobodyIn(bound, c, from, i, failed); }
    PublishWhileArriving(Moved(s, c, r), c, r, roomValid, at, i, failed);
    if at in {AfterBind, AfterErase, AfterLeave} {
      NoPointArriving(Moved(s, c, r), c, r, roomValid, at, i, failed);
      NoPointArriving(Moved(Pruned(s, i, failed), c, r), c, r, roomValid, at, i, failed);
      NoPointArriving(Pruned(Moved(s, c, r), i, failed), c, r, roomValid, at, i, failed);
      NotPublished(Join(s, c, r, roomValid), c, i, failed);
    }
  }

  /** A call in which everyone is reached changes nothing: the handler in pieces is the handler. */
  lemma InterruptedByNothing(s: State, c: Conn, r: Room, roomValid: bool, at: Point, i: Inst)
    requires Inv(s) && !(Bound(s, c) == r && r in s.rooms)
    ensures Interrupted(s, c, r, roomValid, at, i, {}) == Join(s, c, r, roomValid)
  {
    hide Interrupted, Join, Inv, Pruned;
    PublishWhileJoining(s, c, r, roomValid, at, i, {});
    PrunedByNothing(s, i);
    PrunedByNothing(Join(s, c, r, roomValid), i);
    var none: set<Conn> := {};
    assert none - {c} == none;
  }

  lemma PrunedByNothing(s: State, i: Inst)
    ensures Pruned(s, i, {}) == s
  {
    if i in s.instances {
      var x := s.instances[i];
      assert x.listeners - {} == x.listeners;
      assert s.instances[i := x] == s.instances;
    }
  }

  lemma NotPublished(s: State, c: Conn, i: Inst, failed: set<Conn>)
    ensures PublishedLater(s, s, c, i, failed)
  {
  }

  lemma NobodyIn(s: State, c: Conn, r: Room, i: Inst, failed: set<Conn>)
    requires r !in s.rooms
    ensures Leave(s, c, r) == s && Leave(Pruned(s, i, failed), c, r) == Pruned(s, i, failed)
  {
  }

  // ---------------------------------------------------------------- what a close handler misses

  /**
   When a connection closes, its close handler names the room it last opened itself. A connection
   that has since joined a room that was there already goes on being listed in it: exactly then
   does closing leave it behind.
   */
  lemma ClosingLeavesBehind(s: State, c: Conn, r: Room)
    requires Inv(s)
    ensures Listens(Step(s, ServerClose(c)), c, r)
       <==> Listens(s, c, r) && !(c in s.closing && s.closing[c] == r)
  {
  }

  /** What opens a valid room that nobody has open: one of the four platforms, '_' and something, between blanks. */
  lemma PayloadsThatOpen(s: State, c: Conn, a: string, tag: string, id: string, b: string)
    requires Blank(a) && Blank(b) && tag != [] && id != [] && |tag| + |id| >= 3 && '_' !in tag
    requires !IsSpace(tag[0]) && !IsSpace(id[|id| - 1])
    ensures Opens(s, Message(c, true, a + tag + "_" + id + b, true), c, tag + "_" + id)
       <==> tag + "_" + id !in s.rooms && (tag == "douyu" || tag == "bilibili" || tag == "huajiao" || tag == "YY")
  {
    hide Trim, WellFormed, TagOf;
    PayloadNames(a, tag, id, b);
  }

  predicate OpensAny(s: State, e: Event, c: Conn) {
    e.Message? && Opens(s, e, c, Trim(e.payload))
  }

  predicate ClosesIn(s: State, c: Conn, r: Room) {
    c in s.closing && s.closing[c] == r
  }

  /** Opening is what maps a new instance to the room, and it is what a close handler remembers. */
  lemma OpeningIsRemembered(s: State, e: Event, c: Conn, r: Room)
    requires Inv(s)
    ensures Opens(s, e, c, r) <==> e.Message? && e.c == c && MapsTo(Step(s, e), r, s.made)
    ensures ClosesIn(Step(s, e), c, r) <==> Opens(s, e, c, r) || (ClosesIn(s, c, r) && !OpensAny(s, e, c))
  {
    hide Inv, Join, Leave, Trim, WellFormed, TagOf;
    NotMappedYet(s, r);
    match e
    case Message(d, isText, payload, roomValid) =>
      if isText && WellFormed(Trim(payload)) { JoinOpens(s, d, Trim(payload), roomValid, c, r); }
    case ServerClose(d) => if d in s.closing { LeaveOpensNothing(s, d, s.closing[d], r); }
    case _ =>
  }

  lemma NotMappedYet(s: State, r: Room)
    requires Inv(s)
    ensures !MapsTo(s, r, s.made)
  {
    if r in s.rooms { assert MappedOk(s, r); }
  }

  lemma LeaveOpensNothing(s: State, c: Conn, r: Room, q: Room)
    ensures var t := Leave(s, c, r);
            && t.closing == s.closing && t.made == s.made
            && (q in t.rooms ==> q in s.rooms && t.rooms[q] == s.rooms[q]) && (q != r && q in s.rooms ==> q in t.rooms)
  {
  }

  lemma JoinOpens(s: State, d: Conn, q: Room, roomValid: bool, c: Conn, r: Room)
    requires Inv(s)
    ensures var t := Join(s, d, q, roomValid);
            var opens := q !in s.rooms && TagOf(q) in PLATFORMS && roomValid;
            && (MapsTo(t, r, s.made) <==> opens && r == q)
            && (ClosesIn(t, c, r) <==> if opens && d == c then r == q else ClosesIn(s, c, r))
  {
    hide Inv, Leave, TagOf;
    NotMappedYet(s, r);
    FallThroughUnreachable(s, d, q);
    BindLater(s, d, q);
    LeaveOpensNothing(s, d, Bound(s, d), q);
    LeaveOpensNothing(s, d, Bound(s, d), r);
  }

  /** After every run, a close handler names the room that its connection has opened last, if it has opened any. */
  lemma ClosesInLastOpened(es: seq<Event>, c: Conn, r: Room)
    ensures ClosesIn(Run(INITIAL, es), c, r)
       <==> Since(es, (s, e) => Opens(s, e, c, r), (s, e) => OpensAny(s, e, c))
  {
    hide Step, Inv, Opens, OpensAny, Since, Run;
    forall s, e | Inv(s)
      ensures ClosesIn(Step(s, e), c, r) <==> Opens(s, e, c, r) || (ClosesIn(s, c, r) && !OpensAny(s, e, c))
    {
      OpeningIsRemembered(s, e, c, r);
    }
    HoldsSince(es, s => ClosesIn(s, c, r), (s, e) => Opens(s, e, c, r), (s, e) => OpensAny(s, e, c));
  }

  /** After any run, a closing connection is left behind where it listens, unless it opened that room last. */
  lemma LeftBehindAfterRun(es: seq<Event>, c: Conn, r: Room)
    ensures Listens(Run(INITIAL, es + [ServerClose(c)]), c, r)
       <==> && Listens(Run(INITIAL, es), c, r)
            && !Since(es, (s, e) => Opens(s, e, c, r), (s, e) => OpensAny(s, e, c))
  {
    hide Step, Inv, Opens, OpensAny, Since, Run;
    InitiallyInv();
    RunKeeps(INITIAL, es);
    RunSnoc(INITIAL, es, ServerClose(c));
    ClosingLeavesBehind(Run(INITIAL, es), c, r);
    ClosesInLastOpened(es, c, r);
  }

  /** A run that ends with a connection closed and still listed. */
  lemma LeftBehind(c: Conn, d: Conn)
    requires c != d
    ensures var s := Run(INITIAL, [Message(c, true, "YY_1", true), Message(d, true, "YY_1", true), ServerClose(d)]);
            Listens(s, d, "YY_1") && Listens(s, c, "YY_1")
  {
    RoomNamed();
    var r := "YY_1";
    var e1, e2, e3 := Message(c, true, r, true), Message(d, true, r, true), ServerClose(d);
    var s1 := Step(INITIAL, e1);
    assert s1.rooms == map[r := 0] && At(s1, 0).listeners == {c} && s1.closing == map[c := r] && Bound(s1, d) == "";
    var s2 := Step(s1, e2);
    assert s2.rooms == map[r := 0] && At(s2, 0).listeners == {c, d} && s2.closing == map[c := r];
    var s3 := Step(s2, e3);
    assert Run(s2, [e3]) == s3 && Run(s1, [e2, e3]) == s3 by {
      assert [e3][1..] == [] && [e2, e3][1..] == [e3];
    }
    assert [e1, e2, e3][1..] == [e2, e3];
  }

  /** A run that ends with a connection still listed in a room that it has opened itself, though not last. */
  lemma OpenedAndLeftBehind(c: Conn, d: Conn)
    requires c != d
    ensures var open1, join1 := Message(c, true, "YY_1", true), Message(d, true, "YY_1", true);
            var open2 := Message(c, true, "YY_2", true);
            && Opens(INITIAL, open1, c, "YY_1")
            && Listens(Run(INITIAL, [open1, join1, open2, open1, ServerClose(c)]), c, "YY_1")
  {
    hide Step, Opens;
    RoomNamed();
    var open1, join1 := Message(c, true, "YY_1", true), Message(d, true, "YY_1", true);
    var open2 := Message(c, true, "YY_2", true);
    var es := [open1, join1, open2, open1, ServerClose(c)];
    var s1 := Step(INITIAL, es[0]);
    var s2 := Step(s1, es[1]);
    var s3 := Step(s2, es[2]);
    FiveSteps(es);
    OpensFirst(c, d);
    OpensSecond(s2, c, d);
    ReturnsAndCloses(s3, c, d);
  }

  lemma FiveSteps(es: seq<Event>)
    requires |es| == 5
    ensures Run(INITIAL, es) == Step(Step(Step(Step(Step(INITIAL, es[0]), es[1]), es[2]), es[3]), es[4])
  {
    hide Step;
    assert es == [es[0]] + [es[1]] + [es[2]] + [es[3]] + [es[4]];
    RunSnoc(INITIAL, [es[0]] + [es[1]] + [es[2]] + [es[3]], es[4]);
    RunSnoc(INITIAL, [es[0]] + [es[1]] + [es[2]], es[3]);
    RunSnoc(INITIAL, [es[0]] + [es[1]], es[2]);
    RunSnoc(INITIAL, [es[0]], es[1]);
    RunSnoc(INITIAL, [], es[0]);
    assert [] + [es[0]] == [es[0]];
  }

  ghost predicate TwoInOne(s: State, c: Conn, d: Conn) {
    && s.rooms == map["YY_1" := 0] && At(s, 0).listeners == {c, d} && s.made == 1
    && Bound(s, c) == "YY_1" && s.closing == map[c := "YY_1"]
  }

  lemma OpensFirst(c: Conn, d: Conn)
    requires c != d
    ensures Opens(INITIAL, Message(c, true, "YY_1", true), c, "YY_1")
    ensures TwoInOne(Step(Step(INITIAL, Message(c, true, "YY_1", true)), Message(d, true, "YY_1", true)), c, d)
  {
    RoomNamed();
    var s1 := Step(INITIAL, Message(c, true, "YY_1", true));
    assert s1.rooms == map["YY_1" := 0] && At(s1, 0).listeners == {c} && s1.closing == map[c := "YY_1"];
    assert Bound(s1, d) == "" && s1.made == 1;
  }

  ghost predicate OneInEach(s: State, c: Conn, d: Conn) {
    && s.rooms == map["YY_1" := 0, "YY_2" := 1] && At(s, 0).listeners == {d} && At(s, 1).listeners == {c}
    && Bound(s, c) == "YY_2" && s.closing == map[c := "YY_2"]
  }

  lemma OpensSecond(s: State, c: Conn, d: Conn)
    requires TwoInOne(s, c, d) && c != d
    ensures OneInEach(Step(s, Message(c, true, "YY_2", true)), c, d)
  {
    RoomNamed();
    assert "YY_1"[3] != "YY_2"[3];
    hide Trim, WellFormed;
    var left := Moved(s, c, "YY_2");
    assert {c, d} - {c} == {d};
    assert left.rooms == s.rooms && At(left, 0).listeners == {d} && left.made == 1;
    assert Step(s, Message(c, true, "YY_2", true)) == Enter(Make(left), c, "YY_2", 1);
  }

  lemma ReturnsAndCloses(s: State, c: Conn, d: Conn)
    requires OneInEach(s, c, d) && c != d
    ensures Listens(Step(Step(s, Message(c, true, "YY_1", true)), ServerClose(c)), c, "YY_1")
  {
    RoomNamed();
    assert "YY_1"[3] != "YY_2"[3];
    hide Trim, WellFormed;
    var left := Moved(s, c, "YY_1");
    assert {c} - {c} == {};
    assert left.rooms == map["YY_1" := 0] && At(left, 0).listeners == {d} && left.closing == s.closing;
    var t := Step(s, Message(c, true, "YY_1", true));
    assert t == Arrive(left, c, "YY_1", true);
    assert t.rooms == left.rooms && At(t, 0).listeners == {d} + {c} && t.closing == s.closing;
  }

  lemma RoomNamed()
    ensures Trim("YY_2") == "YY_2" && WellFormed("YY_2") && TagOf("YY_2") == "YY"
    ensures Trim("YY_1") == "YY_1" && WellFormed("YY_1") && TagOf("YY_1") == "YY" && TagOf("YY_1") in PLATFORMS
  {
  }

  // ---------------------------------------------------------------- the server

  function Elements(cs: seq<Conn>): set<Conn> {
    set c | c in cs
  }

  class Server {
    var rooms: map<Room, Inst>
    var instances: map<Inst, Instance>
    var bound: map<Conn, Room>
    var closing: map<Conn, Room>
    var made: nat

    function Now(): State
      reads this
    {
      State(rooms, instances, bound, closing, made)
    }

    ghost predicate Valid()
      reads this
    {
      Inv(Now())
    }

    constructor ()
      ensures Valid() && Now() == INITIAL
    {
      rooms, instances, bound, closing, made := map[], map[], map[], map[], 0;
    }

    // `platform_base`

    method AddListener(i: Inst, c: Conn)
      requires i in instances
      modifies this`instances
      ensures Now() == Put(old(Now()), i, old(At(Now(), i)).(listeners := old(At(Now(), i)).listeners + {c}))
    {
      var x := instances[i];
      instances := instances[i := x.(listeners := x.listeners + {c})];
    }

    method EraseListener(i: Inst, c: Conn)
      requires i in instances
      modifies this`instances
      ensures Now() == Put(old(Now()), i, old(At(Now(), i)).(listeners := old(At(Now(), i)).listeners - {c}))
    {
      var x := instances[i];
      instances := instances[i := x.(listeners := x.listeners - {c})];
    }

    method HaveListener(i: Inst, c: Conn) returns (have: bool)
      requires i in instances
      ensures have <==> c in At(Now(), i).listeners
    {
      have := c in instances[i].listeners;
    }

    method ListenersCount(i: Inst) returns (n: nat)
      requires i in instances
      ensures n == |At(Now(), i).listeners|
    {
      n := |instances[i].listeners|;
    }

    method Start(i: Inst)
      requires i in instances
      modifies this`instances
      ensures Now() == Put(old(Now()), i, old(At(Now(), i)).(starts := old(At(Now(), i)).starts + 1))
    {
      instances := instances[i := instances[i].(starts := instances[i].starts + 1)];
    }

    method Close(i: Inst)
      requires i in instances
      modifies this`instances
      ensures Now() == Put(old(Now()), i, old(At(Now(), i)).(closes := old(At(Now(), i)).closes + 1))
    {
      instances := instances[i := instances[i].(closes := instances[i].closes + 1)];
    }

    /** `publish`: `failed` are the connections to which sending does not succeed. */
    method Publish(i: Inst, failed: set<Conn>)
      requires Valid() && i in instances
      modifies this`instances
      ensures Valid() && Now() == Step(old(Now()), Event.Publish(i, failed))
    {
      hide Inv;
      PublishKeeps(Now(), i, failed);
      var toBeDeleted := Unreachable(instances[i].listeners, failed);
      ghost var before := Now();
      assert At(before, i).listeners - Elements(toBeDeleted[..0]) == At(before, i).listeners;
      assert instances == instances[i := instances[i]];
      for k := 0 to |toBeDeleted|
        invariant i in instances
        invariant Now()
               == Put(before, i, At(before, i).(listeners := At(before, i).listeners - Elements(toBeDeleted[..k])))
      {
        assert Elements(toBeDeleted[..k + 1]) == Elements(toBeDeleted[..k]) + {toBeDeleted[k]};
        EraseListener(i, toBeDeleted[k]);
        assert before.instances[i].listeners - Elements(toBeDeleted[..k + 1])
            == before.instances[i].listeners - Elements(toBeDeleted[..k]) - {toBeDeleted[k]};
      }
      assert toBeDeleted[..|toBeDeleted|] == toBeDeleted;
      assert At(before, i).listeners - Elements(toBeDeleted) == At(before, i).listeners - failed;
    }

    /** The sending loop: collects the listeners to which sending does not succeed. */
    static method Unreachable(listeners: set<Conn>, failed: set<Conn>) returns (toBeDeleted: seq<Conn>)
      ensures Elements(toBeDeleted) == listeners * failed
    {
      toBeDeleted := [];
      var rest := listeners;
      while rest != {}
        invariant rest <= listeners && Elements(toBeDeleted) == (listeners - rest) * failed
        decreases |rest|
      {
        var c :| c in rest;
        if c in failed {
          assert Elements(toBeDeleted + [c]) == Elements(toBeDeleted) + {c};
          toBeDeleted := toBeDeleted + [c];
        }
        rest := rest - {c};
      }
    }

    // main.cpp

    method OnPlatformClose(room: Room)
      requires Valid()
      modifies this
      ensures Valid() && Now() == Step(old(Now()), PlatformClose(room))
    {
      PlatformCloseKeeps(Now(), room);
      rooms := rooms - {room};
    }

    /** Erasing a listener and, if it was the last one, closing the instance: common to both handlers. */
    method LeaveRoom(c: Conn, r: Room)
      requires r in rooms && rooms[r] in instances
      modifies this`instances, this`rooms
      ensures Now() == Leave(old(Now()), c, r)
    {
      var pbase := rooms[r];
      EraseListener(pbase, c);
      var n := ListenersCount(pbase);
      if n == 0 {
        Close(pbase);
        rooms := rooms - {r};
      }
    }

    method OnServerClose(room: Room, c: Conn)
      requires Valid() && c in closing && closing[c] == room
      modifies this
      ensures Valid() && Now() == Step(old(Now()), ServerClose(c))
    {
      hide Inv;
      LeaveKeeps(Now(), c, room);
      OneRoomEach(Now(), room, room);
      if room !in rooms { return; }
      LeaveRoom(c, room);
    }

    method OnServerMessage(oldRoom: Room, c: Conn, isText: bool, payload: string, roomValid: bool)
      requires Valid() && oldRoom == Bound(Now(), c)
      modifies this
      ensures Valid() && Now() == Step(old(Now()), Message(c, isText, payload, roomValid))
    {
      hide Inv, Trim, WellFormed, Leave, Arrive;
      StepKeeps(Now(), Message(c, isText, payload, roomValid));
      if !isText { return; }
      var room := Trim(payload);
      if !WellFormed(room) { return; }
      if oldRoom == room && room in rooms { return; }
      MovedKeeps(Now(), c, room);
      OneRoomEach(Now(), oldRoom, oldRoom);
      bound := bound[c := room];
      if oldRoom in rooms { LeaveRoom(c, oldRoom); } else { NobodyLeaves(Now(), c, oldRoom); }
      ArriveAt(c, room, roomValid);
    }

    method ArriveAt(c: Conn, room: Room, roomValid: bool)
      requires Valid()
      modifies this
      ensures Now() == Arrive(old(Now()), c, room, roomValid)
    {
      hide Inv, TagOf;
      OneRoomEach(Now(), room, room);
      var pbase;
      if room in rooms {
        pbase := rooms[room];
        var have := HaveListener(pbase, c);
        if !have {
          AddListener(pbase, c);
          return;
        }
      } else {
        if TagOf(room) !in PLATFORMS { return; }
        pbase := made;
        instances := instances[pbase := Instance({}, 0, 0)];
        made := made + 1;
        if !roomValid { return; }
      }
      EnterAt(c, room, pbase);
    }

    /** The end of the handler: the instance gets its listener, is mapped and started. */
    method EnterAt(c: Conn, room: Room, pbase: Inst)
      requires pbase in instances
      modifies this
      ensures Now() == Enter(old(Now()), c, room, pbase)
    {
      closing := closing[c := room];
      AddListener(pbase, c);
      rooms := rooms[room := pbase];
      Start(pbase);
    }
  }

  lemma NobodyLeaves(s: State, c: Conn, r: Room)
    ensures r !in s.rooms ==> Leave(s, c, r) == s
  {
  }
}
