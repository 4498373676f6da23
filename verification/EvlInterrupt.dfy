/** The handshake between the device and the event-log handler. The device appends an entry and sets the
    interrupt-pending bit at any moment, also between two steps of the handler. Entries are counted from the
    first one ever logged. */
module EvlInterrupt {

  datatype Handler =
    | Idle
    | Started                        // lock taken
    | Cleared                        // pending bit cleared, tail not yet read
    | Read(tail: nat)                // tail read, pending bit not yet cleared
    | Visiting(next: nat, tail: nat)

  datatype State = State(logged: nat, visited: nat, pending: bool, handler: Handler)

  const INITIAL := State(0, 0, false, Idle)

  datatype Action = Log | Start | Clear | ReadTail | Visit | Finish

  /** `clearFirst` is the order of the code: clear the bit, then read the tail. */
  predicate Enabled(s: State, a: Action, size: nat, clearFirst: bool) {
    match a
    case Log => s.logged - s.visited + 1 < size
    case Start => s.handler.Idle?
    case Clear => if clearFirst then s.handler.Started? else s.handler.Read?
    case ReadTail => if clearFirst then s.handler.Cleared? else s.handler.Started?
    case Visit => s.handler.Visiting? && s.handler.next < s.handler.tail
    case Finish => s.handler.Visiting? && s.handler.next == s.handler.tail
  }

  function Apply(s: State, a: Action, size: nat, clearFirst: bool): State
    requires Enabled(s, a, size, clearFirst)
  {
    match a
    case Log => s.(logged := s.logged + 1, pending := true)
    case Start => s.(handler := Started)
    case Clear => s.(pending := false, handler := if clearFirst then Cleared else Visiting(s.visited, s.handler.tail))
    case ReadTail => s.(handler := if clearFirst then Visiting(s.visited, s.logged) else Read(s.logged))
    case Visit => s.(handler := Visiting(s.handler.next + 1, s.handler.tail))
    case Finish => s.(visited := s.handler.next, handler := Idle)
  }

  predicate Possible(s: State, run: seq<Action>, size: nat, clearFirst: bool)
    decreases |run|
  {
    run != [] ==>
      Enabled(s, run[0], size, clearFirst) && Possible(Apply(s, run[0], size, clearFirst), run[1..], size, clearFirst)
  }

  function After(s: State, run: seq<Action>, size: nat, clearFirst: bool): State
    requires Possible(s, run, size, clearFirst)
    decreases |run|
  {
    if run == [] then s else After(Apply(s, run[0], size, clearFirst), run[1..], size, clearFirst)
  }

  /** Unvisited entries, the bit clear, and no handler running that could find them. */
  predicate Lost(s: State) {
    s.visited < s.logged && !s.pending && s.handler.Idle?
  }

  predicate Inv(s: State) {
    && s.visited <= s.logged
    && (s.handler.Idle? && s.visited < s.logged ==> s.pending)
    && !s.handler.Read?
    && (s.handler.Visiting? ==>
          s.visited <= s.handler.next <= s.handler.tail <= s.logged && (s.handler.tail < s.logged ==> s.pending))
  }

  lemma {:induction false} RunKeepsInv(s: State, run: seq<Action>, size: nat)
    requires Inv(s) && Possible(s, run, size, true)
    ensures Inv(After(s, run, size, true))
    decreases |run|
  {
    if run != [] {
      RunKeepsInv(Apply(s, run[0], size, true), run[1..], size);
    }
  }

  /** No event is lost in any interleaving exactly because the bit is cleared before the tail is read (in a log
      with room for an entry). */
  lemma NothingLostIff(size: nat, clearFirst: bool)
    requires size >= 2
    ensures (forall run :: Possible(INITIAL, run, size, clearFirst) ==> !Lost(After(INITIAL, run, size, clearFirst)))
            <==> clearFirst
  {
    if clearFirst {
      forall run | Possible(INITIAL, run, size, clearFirst)
        ensures !Lost(After(INITIAL, run, size, clearFirst))
      {
        RunKeepsInv(INITIAL, run, size);
        assert Inv(After(INITIAL, run, size, clearFirst));
      }
    } else {
      LostBetween(size);
      var run := [Start, ReadTail, Log, Clear, Finish];
      var end := After(INITIAL, run, size, clearFirst);
      assert Lost(end);
      assert exists run :: Possible(INITIAL, run, size, clearFirst) && Lost(After(INITIAL, run, size, clearFirst));
    }
  }

  /** With the two steps swapped, an entry logged between them is lost. */
  lemma LostBetween(size: nat)
    requires size >= 2
    ensures var run := [Start, ReadTail, Log, Clear, Finish];
      Possible(INITIAL, run, size, false) && Lost(After(INITIAL, run, size, false))
  {
    var s1 := INITIAL.(handler := Started);
    var s2 := s1.(handler := Read(0));
    var s3 := s2.(logged := 1, pending := true);
    var s4 := s3.(pending := false, handler := Visiting(0, 0));
    var s5 := s4.(handler := Idle);
    var run := [Start, ReadTail, Log, Clear, Finish];
    assert run[1..] == [ReadTail, Log, Clear, Finish] && run[1..][1..] == [Log, Clear, Finish];
    assert [Log, Clear, Finish][1..] == [Clear, Finish] && [Clear, Finish][1..] == [Finish] && [Finish][1..] == [];
    assert Possible(s4, [Finish], size, false) && After(s4, [Finish], size, false) == s5;
    assert Possible(s3, [Clear, Finish], size, false) && After(s3, [Clear, Finish], size, false) == s5;
    assert Possible(s2, [Log, Clear, Finish], size, false) && After(s2, [Log, Clear, Finish], size, false) == s5;
    assert Possible(s1, run[1..], size, false) && After(s1, run[1..], size, false) == s5;
  }

  function Visits(n: nat): seq<Action> {
    if n == 0 then [Finish] else [Visit] + Visits(n - 1)
  }

  lemma {:induction false} VisitsFinish(s: State, size: nat)
    requires s.handler.Visiting? && s.handler.next <= s.handler.tail
    ensures var run := Visits(s.handler.tail - s.handler.next);
      Possible(s, run, size, true) && After(s, run, size, true) == s.(visited := s.handler.tail, handler := Idle)
    decreases s.handler.tail - s.handler.next
  {
    var run := Visits(s.handler.tail - s.handler.next);
    if s.handler.next < s.handler.tail {
      VisitsFinish(Apply(s, Visit, size, true), size);
      assert run[1..] == Visits(s.handler.tail - s.handler.next - 1);
    } else {
      assert run[1..] == [];
      assert After(s, run, size, true) == After(Apply(s, Finish, size, true), [], size, true);
    }
  }

  /** Everything logged before a tail read has been visited whenever the handler is idle again, however the
      device's entries and the steps of this and later handlers interleave. */
  lemma HandlerCatchesUp(s: State, run: seq<Action>, size: nat)
    requires Inv(s) && s.handler.Cleared? && Possible(Apply(s, ReadTail, size, true), run, size, true)
    ensures var end := After(Apply(s, ReadTail, size, true), run, size, true);
      end.handler.Idle? ==> end.visited >= s.logged
  {
    RunReaches(Apply(s, ReadTail, size, true), run, size, s.logged);
  }

  /** The handler has visited the first `n` entries, or is about to. */
  predicate Reaches(s: State, n: nat) {
    s.visited >= n || (s.handler.Visiting? && s.handler.tail >= n)
  }

  lemma {:induction false} RunReaches(s: State, run: seq<Action>, size: nat, n: nat)
    requires Inv(s) && Reaches(s, n) && Possible(s, run, size, true)
    ensures Reaches(After(s, run, size, true), n)
    decreases |run|
  {
    if run != [] {
      RunReaches(Apply(s, run[0], size, true), run[1..], size, n);
    }
  }

  /** A run of the handler that the device leaves alone comes to its end and visits everything, from every
      reachable idle state. */
  lemma QuietRunVisitsAll(s: State, size: nat)
    requires Inv(s) && s.handler.Idle?
    ensures var run := [Start, Clear, ReadTail] + Visits(s.logged - s.visited);
      Possible(s, run, size, true) && After(s, run, size, true) == s.(visited := s.logged, pending := false)
  {
    var rest := Visits(s.logged - s.visited);
    var s1 := s.(handler := Started);
    var s2 := s1.(pending := false, handler := Cleared);
    var s3 := s2.(handler := Visiting(s.visited, s.logged));
    VisitsFinish(s3, size);
    assert ([ReadTail] + rest)[1..] == rest;
    var end := s.(visited := s.logged, pending := false);
    assert Possible(s2, [ReadTail] + rest, size, true) && After(s2, [ReadTail] + rest, size, true) == end;
    assert ([Clear, ReadTail] + rest)[1..] == [ReadTail] + rest;
    assert Possible(s1, [Clear, ReadTail] + rest, size, true) && After(s1, [Clear, ReadTail] + rest, size, true) == end;
    assert ([Start, Clear, ReadTail] + rest)[1..] == [Clear, ReadTail] + rest;
  }
}
