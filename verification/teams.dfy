/** The three-valued tile owner and its `operator!`. */
module Teams {

  /** Who owns a tile: nobody, or one of the two colours. The source stores
      them as the characters the renderer draws ('.', 'R' and 'B'). */
  datatype Team = None | Red | Blue

  /** The source's `operator!`: Blue becomes Red, every other value becomes Blue. */
  function Opposite(t: Team): (o: Team)
    ensures IsPlayer(o)
    ensures IsPlayer(t) ==> o != t
  {
    if t == Blue then Red else Blue
  }

  /** A team that can actually own a tile (a player's colour). */
  predicate IsPlayer(t: Team)
  {
    t == Red || t == Blue
  }

  /** `!` swaps the two colours, is an involution on them, and sends `None`
      to Blue (the `else` arm of the source's conditional). */
  lemma OppositeSwaps(t: Team)
    ensures Opposite(Red) == Blue && Opposite(Blue) == Red
    ensures IsPlayer(t) ==> Opposite(t) != t && IsPlayer(Opposite(t))
    ensures IsPlayer(t) ==> Opposite(Opposite(t)) == t
    ensures Opposite(None) == Blue
  {
  }
}
