/**
 * Enter/centre/exit poses of the mobile carousel card. The transition
 * direction picks the side a card enters from and the side it leaves to.
 */
module CardVariants {

  /** Horizontal offset (pixels), opacity and scale of a card. */
  datatype Pose = Pose(x: int, opacity: real, scale: real)

  /** Horizontal distance a card travels while entering or leaving. */
  const Travel: int := 300

  /** Pose a new card starts from: off to the right when moving forward,
      to the left otherwise (including the initial direction 0), faded out
      and slightly shrunk. */
  function Enter(direction: int): (p: Pose)
    ensures p.x > 0 <==> direction > 0
    ensures p.x == Travel || p.x == -Travel
    ensures p.opacity == 0.0 && p.scale == 0.96
  {
    Pose(if direction > 0 then Travel else -Travel, 0.0, 0.96)
  }

  /** Resting pose of the visible card. */
  function Center(): (p: Pose)
    ensures p.x == 0 && p.opacity == 1.0 && p.scale == 1.0
  {
    Pose(0, 1.0, 1.0)
  }

  /** Pose the outgoing card ends in: the mirror image of where an entering
      card starts, for the same direction. */
  function Exit(direction: int): (p: Pose)
    ensures p.x == -Enter(direction).x
    ensures p.opacity == Enter(direction).opacity && p.scale == Enter(direction).scale
  {
    Pose(if direction > 0 then -Travel else Travel, 0.0, 0.96)
  }

  /** For every direction the incoming and the outgoing card travel the same
      way across the screen (both leftward when moving forward, both
      rightward otherwise), and each travels the full offset. */
  lemma CardsTravelTogether(direction: int)
    ensures Center().x - Enter(direction).x == Exit(direction).x - Center().x
    ensures Enter(0).x == -Travel
    ensures direction > 0 ==> Exit(direction).x - Center().x == -Travel
    ensures direction <= 0 ==> Exit(direction).x - Center().x == Travel
  {
  }
}
