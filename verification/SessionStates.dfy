/** The filesystem session's state cell: which moves it accepts, and what every
    accepted sequence of moves guarantees about block ownership. */
module SessionStates {
  import opened Seqs

  datatype State =
    | Unopened
    | SessionReady
    | BlockControllerOwned
    | BlockCpuOwned
    | VolumeValidated
    | FileLocated
    | FileRead
    | Stopping
    | Released

  datatype Refusal = Repeated | Reversed | Invalid

  function Rank(s: State): nat {
    match s
    case Unopened => 0
    case SessionReady => 1
    case BlockControllerOwned => 2
    case BlockCpuOwned => 3
    case VolumeValidated => 4
    case FileLocated => 5
    case FileRead => 6
    case Stopping => 7
    case Released => 8
  }

  predicate Allowed(s: State, next: State) {
    match s
    case Unopened => next == SessionReady
    case SessionReady => next in {BlockControllerOwned, Stopping}
    case VolumeValidated => next in {BlockControllerOwned, Stopping}
    case FileLocated => next in {BlockControllerOwned, Stopping}
    case BlockControllerOwned => next in {BlockCpuOwned, Stopping}
    case BlockCpuOwned => next in {BlockControllerOwned, VolumeValidated, FileLocated, FileRead, Stopping}
    case FileRead => next == Stopping
    case Stopping => next == Released
    case Released => false
  }

  /** None when the move is taken. */
  function Transition(s: State, next: State): Option<Refusal> {
    if next == Unopened then Some(Invalid)
    else if s == next then Some(Repeated)
    else if Allowed(s, next) then None
    else if Rank(next) < Rank(s) && next != Stopping && next != Released then Some(Reversed)
    else Some(Invalid)
  }

  /** The states in the order a session passes them. */
  const STAGES: seq<State> := [Unopened, SessionReady, BlockControllerOwned, BlockCpuOwned, VolumeValidated,
                               FileLocated, FileRead, Stopping, Released]

  ghost predicate Earlier(a: State, b: State) {
    exists i, j :: 0 <= i < j < |STAGES| && STAGES[i] == a && STAGES[j] == b
  }

  /** The moves of a session: it opens once; a block goes to the controller from any resting state or
      again from the CPU, and comes back; a block the CPU holds may be recognised as volume, place
      or file; anything open may stop, and what stopped is released. */
  ghost predicate Moves(s: State, next: State) {
    || (s == Unopened && next == SessionReady)
    || (next == BlockControllerOwned && s in {SessionReady, VolumeValidated, FileLocated, BlockCpuOwned})
    || (s == BlockControllerOwned && next == BlockCpuOwned)
    || (s == BlockCpuOwned && next in {VolumeValidated, FileLocated, FileRead})
    || (next == Stopping && s !in {Unopened, Stopping, Released})
    || (s == Stopping && next == Released)
  }

  lemma RankIsPlace(a: State, b: State)
    ensures Rank(a) < Rank(b) <==> Earlier(a, b)
  {
    hide Rank;
    PlaceOf(a);
    PlaceOf(b);
  }

  lemma PlaceOf(s: State)
    ensures 0 <= Rank(s) < |STAGES| && STAGES[Rank(s)] == s
    ensures forall i :: 0 <= i < |STAGES| && STAGES[i] == s ==> i == Rank(s)
  {
  }

  /** Which moves are taken, and how each other one is refused. */
  lemma TransitionExactly(s: State, next: State)
    ensures Transition(s, next) == None <==> Moves(s, next)
    ensures Transition(s, next) == Some(Repeated) <==> s == next && next != Unopened
    ensures Transition(s, next) == Some(Reversed) <==>
      !Moves(s, next) && Earlier(next, s) && next !in {Unopened, Stopping, Released}
  {
    hide Earlier, Rank;
    RankIsPlace(next, s);
    NotBeforeItself(s);
  }

  lemma NotBeforeItself(s: State)
    ensures !Earlier(s, s)
  {
    RankIsPlace(s, s);
  }

  predicate CpuMayInspect(s: State) {
    s in {BlockCpuOwned, VolumeValidated, FileLocated, FileRead}
  }

  /** The states of a session, each reached by an accepted move. */
  ghost predicate Path(states: seq<State>) {
    && |states| > 0 && states[0] == Unopened
    && forall i :: 0 < i < |states| ==> Transition(states[i - 1], states[i]) == None
  }

  /** Ownership came back at j and the controller has not had the block since. */
  ghost predicate ReturnedAt(states: seq<State>, j: nat) {
    j < |states| && states[j] == BlockCpuOwned &&
    forall k :: j < k < |states| ==> states[k] != BlockControllerOwned
  }

  lemma {:induction false} InspectedAfterReturn(states: seq<State>) returns (j: nat)
    requires Path(states) && CpuMayInspect(states[|states| - 1])
    ensures ReturnedAt(states, j) && 0 < j && states[j - 1] == BlockControllerOwned
    decreases |states|
  {
    var n := |states| - 1;
    assert Transition(states[n - 1], states[n]) == None;
    if states[n] == BlockCpuOwned {
      j := n;
    } else {
      assert Path(states[..n]);
      j := InspectedAfterReturn(states[..n]);
      assert states[..n][j] == states[j];
    }
  }

  /** Nothing follows a release, and nothing but a release follows stopping. */
  lemma {:induction false} ReleaseIsLast(states: seq<State>, i: nat)
    requires Path(states) && i < |states|
    ensures states[i] == Released ==> i == |states| - 1
    ensures states[i] == Stopping ==> i >= |states| - 2
  {
    if i + 1 < |states| {
      assert Transition(states[i], states[i + 1]) == None;
      if i + 2 < |states| { assert Transition(states[i + 1], states[i + 2]) == None; }
    }
  }
}
