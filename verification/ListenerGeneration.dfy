/** Listeners that stop when a newer generation is announced (listener_generation.rs). */
module ListenerGeneration {
  import opened Collections

  /** The branch of the `select!` that completes: the stream's next item, or word of the generation channel. */
  datatype Arm<T> = Item(item: Option<T>) | Changed(alive: bool)

  /** One turn of the loop, with the generations read at its top and once its branch completed. */
  datatype Turn<T> = Turn(top: nat, arm: Arm<T>, done: nat)

  datatype Answer<T> = Event(event: T) | Ended | Waiting

  predicate Current<T>(turn: Turn<T>, generation: nat) {
    turn.top == generation && turn.done == generation && (turn.arm.Changed? ==> turn.arm.alive)
  }

  /** The first turn that is more than news of an unchanged generation. */
  function Skip<T>(turns: seq<Turn<T>>, generation: nat): (n: nat)
    ensures n <= |turns| && (n < |turns| && turns[n].arm.Changed? ==> !Current(turns[n], generation))
  {
    if turns != [] && turns[0].arm.Changed? && Current(turns[0], generation) then 1 + Skip(turns[1..], generation)
    else 0
  }

  function Next<T>(turns: seq<Turn<T>>, generation: nat): Answer<T> {
    var n := Skip(turns, generation);
    if n == |turns| then Waiting
    else if Current(turns[n], generation) && turns[n].arm.Item? && turns[n].arm.item.Some? then
      Event(turns[n].arm.item.value)
    else Ended
  }

  /** `next_listener_event`, and the number of turns it took. */
  method NextListenerEvent<T>(turns: seq<Turn<T>>, generation: nat) returns (answer: Answer<T>, used: nat)
    ensures answer == Next(turns, generation)
    ensures used <= |turns| && (!answer.Waiting? ==> used == Skip(turns, generation) + 1)
    ensures answer.Event? ==> Current(turns[used - 1], generation) && turns[used - 1].arm == Item(Some(answer.event))
  {
    used := 0;
    while used < |turns|
      invariant used <= |turns|
      invariant Skip(turns, generation) == used + Skip(turns[used..], generation)
    {
      var turn := turns[used];
      assert turns[used..][0] == turn && turns[used..][1..] == turns[used + 1..];
      used := used + 1;
      if turn.top != generation {
        return Ended, used;
      }
      match turn.arm
      case Changed(alive) =>
        if !alive || turn.done != generation {
          return Ended, used;
        }
      case Item(item) =>
        if turn.done != generation || item.None? {
          return Ended, used;
        }
        return Event(item.value), used;
    }
    return Waiting, used;
  }

  // ---------- a listener's whole life ----------

  /** Everything a listener hands on: one event after another until it is told to stop. */
  function Delivered<T>(turns: seq<Turn<T>>, generation: nat): seq<T>
    decreases |turns|
  {
    match Next(turns, generation)
    case Event(event) => [event] + Delivered(turns[Skip(turns, generation) + 1..], generation)
    case _ => []
  }

  /** The items that arrive before the generation changes, the channel closes or the stream ends. */
  function Fresh<T>(turns: seq<Turn<T>>, generation: nat): seq<T> {
    if turns == [] || !Current(turns[0], generation) then []
    else match turns[0].arm
      case Item(None) => []
      case Item(Some(event)) => [event] + Fresh(turns[1..], generation)
      case Changed(_) => Fresh(turns[1..], generation)
  }

  lemma {:induction false} DeliveredIsFresh<T>(turns: seq<Turn<T>>, generation: nat)
    ensures Delivered(turns, generation) == Fresh(turns, generation)
    decreases |turns|
  {
    var n := Skip(turns, generation);
    FreshSkips(turns, generation);
    match Next(turns, generation)
    case Event(event) =>
      assert turns[n..][1..] == turns[n + 1..];
      DeliveredIsFresh(turns[n + 1..], generation);
    case _ =>
  }

  lemma {:induction false} FreshSkips<T>(turns: seq<Turn<T>>, generation: nat)
    ensures Fresh(turns, generation) == Fresh(turns[Skip(turns, generation)..], generation)
  {
    var n := Skip(turns, generation);
    if n == 0 {
      assert turns[n..] == turns;
    } else {
      var rest := turns[1..];
      FreshSkips(rest, generation);
      assert rest[n - 1..] == turns[n..];
      assert Fresh(turns, generation) == Fresh(rest, generation);
    }
  }

  /** Once another generation is read, a listener hands on nothing more, whatever still arrives. */
  lemma StaleDeliversNothing<T>(turns: seq<Turn<T>>, generation: nat, k: nat)
    requires k < |turns| && (turns[k].top != generation || turns[k].done != generation)
    ensures Delivered(turns, generation) == Delivered(turns[..k], generation)
  {
    DeliveredIsFresh(turns, generation);
    DeliveredIsFresh(turns[..k], generation);
    FreshCut(turns, generation, k);
  }

  lemma {:induction false} FreshCut<T>(turns: seq<Turn<T>>, generation: nat, k: nat)
    requires k < |turns| && (turns[k].top != generation || turns[k].done != generation)
    ensures Fresh(turns, generation) == Fresh(turns[..k], generation)
    decreases k
  {
    if k > 0 {
      assert turns[1..][k - 1] == turns[k] && turns[..k][1..] == turns[1..][..k - 1] && turns[..k][0] == turns[0];
      FreshCut(turns[1..], generation, k - 1);
    }
  }
}
