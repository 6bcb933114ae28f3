/** How many elements an operation moves: the rule shared by enqueue and dequeue. */
module QueueSpec {

  datatype Behavior = Fixed | Variable

  /** All of the request if there is room, otherwise nothing or as much as fits. */
  function Granted(max: nat, room: nat, behavior: Behavior): (n: nat)
    ensures n <= max && n <= room
  {
    if max <= room then max else if behavior == Fixed then 0 else room
  }

  /** What may be moved: no more than asked for or than there is room, and a fixed request whole or not at all. */
  predicate MayMove(n: nat, max: nat, room: nat, behavior: Behavior) {
    n <= max && n <= room && (behavior == Fixed ==> n == 0 || n == max)
  }

  /** The most that may be moved is moved. */
  lemma GrantedIsMost(max: nat, room: nat, behavior: Behavior)
    ensures MayMove(Granted(max, room, behavior), max, room, behavior)
    ensures forall m: nat :: MayMove(m, max, room, behavior) ==> m <= Granted(max, room, behavior)
  {
  }
}
