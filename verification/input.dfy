/** The input controller: arrow keys steer, the space bar and the pause
    button toggle the pause flag. */
module Input {
  import opened Grid
  import opened Engine

  /** The keys the game reacts to; every other key is `Other`. */
  datatype Key = ArrowUp | ArrowDown | ArrowLeft | ArrowRight | Space | Other
  {
    predicate IsArrow() {
      ArrowUp? || ArrowDown? || ArrowLeft? || ArrowRight?
    }
  }

  /** The heading an arrow key asks for. */
  function Heading(k: Key): (d: Direction)
    requires k.IsArrow()
  {
    match k
    case ArrowUp => Up
    case ArrowDown => Down
    case ArrowLeft => Left
    case ArrowRight => Right
  }

  /** Flip the pause flag and nothing else. The flag flips even when the
      game is over. */
  function TogglePause(s: Session): (r: Session)
    ensures r.isPaused == !s.isPaused
    ensures r.(isPaused := s.isPaused) == s
  {
    s.(isPaused := !s.isPaused)
  }

  /** The key handler. An arrow key commits its heading unless that heading
      is the exact opposite of the committed one, in which case the key is
      ignored; the space bar toggles pause; any other key does nothing.
      Neither a pause nor a finished game blocks a key. */
  function OnKey(s: Session, k: Key): (r: Session)
    ensures k.IsArrow() ==> r.(direction := s.direction) == s
    ensures k.IsArrow() ==> (r.direction == Heading(k) <==> Heading(k) != Opposite(s.direction))
    ensures k.IsArrow() && Heading(k) == Opposite(s.direction) ==> r == s
    ensures k == Space ==> r == TogglePause(s)
    ensures k == Other ==> r == s
  {
    match k
    case ArrowUp => if s.direction != Down then s.(direction := Up) else s
    case ArrowDown => if s.direction != Up then s.(direction := Down) else s
    case ArrowLeft => if s.direction != Right then s.(direction := Left) else s
    case ArrowRight => if s.direction != Left then s.(direction := Right) else s
    case Space => TogglePause(s)
    case Other => s
  }

  /** Pausing twice gets the session back. */
  lemma TogglePauseInvolution(s: Session)
    ensures TogglePause(TogglePause(s)) == s
  {
  }
}
