/** Raw key events, the game's input events, and the two pure steps that turn one
    into the other (src/input_listener.rs): the producer's classification of a
    pressed key and the consumer's decoding of what arrives on the channel. */
module InputListener {
  import opened Levels

  datatype Direction = Up | Down | Left | Right

  /** The modifier flags of a key event; `KeyModifiers::NONE` is the empty set. */
  datatype Modifier = Shift | Control | Alt | Super | Hyper | Meta

  /** A key code: a character, Enter, or any other key, identified opaquely. */
  datatype KeyCode = Char(ch: char) | Enter | OtherKey(id: nat)

  /** Whether the event reports a press, an auto-repeat or a release. */
  datatype KeyKind = Press | Repeat | Release

  datatype KeyEvent = KeyEvent(code: KeyCode, modifiers: set<Modifier>, kind: KeyKind)

  datatype InputEvent =
    | Input(key: KeyEvent)
    | Navigation(direction: Direction)
    | GameDifficulty(difficulty: Difficulty)
    | Select
    | Flag
    | Tick
    | Quit

  /** What one timed receive on the channel yields. */
  datatype Receipt = Timeout | Disconnected | Received(event: InputEvent)

  /** The key bindings the decoder recognises, each valid only without modifiers. */
  const Bindings: map<KeyCode, InputEvent> := map[
    Char('d') := Navigation(Right),
    Char('a') := Navigation(Left),
    Char('w') := Navigation(Up),
    Char('s') := Navigation(Down),
    Char('e') := GameDifficulty(Easy),
    Char('m') := GameDifficulty(Medium),
    Char('h') := GameDifficulty(Hard),
    Enter := Select
  ]

  /** Decodes a raw key into a game event by the binding table; an unbound key, or any
      key pressed with a modifier, is handed back unchanged. */
  function DecodeKey(key: KeyEvent): (e: InputEvent)
    ensures e.Input? ==> e.key == key
    ensures key.modifiers != {} ==> e == Input(key)
    ensures e.Input? || e.Navigation? || e.GameDifficulty? || e.Select?
    ensures e == if key.modifiers == {} && key.code in Bindings then Bindings[key.code] else Input(key)
  {
    if key.modifiers != {} then Input(key)
    else match key.code
      case Char(c) =>
        if c == 'd' then Navigation(Right)
        else if c == 'a' then Navigation(Left)
        else if c == 'w' then Navigation(Up)
        else if c == 's' then Navigation(Down)
        else if c == 'e' then GameDifficulty(Easy)
        else if c == 'm' then GameDifficulty(Medium)
        else if c == 'h' then GameDifficulty(Hard)
        else Input(key)
      case Enter => Select
      case OtherKey(_) => Input(key)
  }

  /** No two keys are bound to the same event, so a decoded event tells which key
      produced it. */
  lemma BindingsAreOneToOne()
    ensures forall c, c' :: c in Bindings && c' in Bindings && c != c' ==> Bindings[c] != Bindings[c']
  {
  }

  /** A decoded (non-passthrough) event came from an unmodified key whose code the
      table binds to that very event. */
  lemma DecodedEventNamesItsKey(key: KeyEvent)
    requires !DecodeKey(key).Input?
    ensures key.modifiers == {}
    ensures key.code in Bindings && Bindings[key.code] == DecodeKey(key)
  {
  }

  /** The consumer's decoding of one receive (`InputListener::handle_input`). */
  function HandleInput(r: Receipt): (e: InputEvent)
    ensures !r.Received? ==> e == Tick
    ensures r.Received? && r.event.Input? ==> e == DecodeKey(r.event.key)
    ensures e.Input? ==> r == Received(e)
    ensures e == Flag <==> r == Received(Flag)
    ensures e == Quit <==> r == Received(Quit)
    ensures (e.Navigation? || e.GameDifficulty? || e.Select?) ==> r.Received? && r.event.Input?
    ensures e == Tick <==>
              !r.Received? || r.event.Navigation? || r.event.GameDifficulty? || r.event.Select? || r.event.Tick?
  {
    match r
    case Timeout => Tick
    case Disconnected => Tick
    case Received(event) =>
      match event
      case Input(key) => DecodeKey(key)
      case Flag => Flag
      case Quit => Quit
      case _ => Tick
  }

  /** The producer's classification of a pressed key (`listen_for_key_input`): an
      unmodified `q` is sent as Quit, an unmodified `f` as Flag, anything else raw. */
  function ClassifyKey(key: KeyEvent): (e: InputEvent)
    ensures e == Quit <==> key.code == Char('q') && key.modifiers == {}
    ensures e == Flag <==> key.code == Char('f') && key.modifiers == {}
    ensures e != Quit && e != Flag ==> e == Input(key)
  {
    if key.code == Char('q') && key.modifiers == {} then Quit
    else if key.code == Char('f') && key.modifiers == {} then Flag
    else Input(key)
  }

  /** A key press, classified by the producer and decoded by the consumer: `q` quits,
      `f` flags, every other key goes through the binding table, and no key press
      ever reads as an idle tick. */
  lemma KeyPressPipeline(key: KeyEvent)
    ensures HandleInput(Received(ClassifyKey(key))) ==
              if key.code == Char('q') && key.modifiers == {} then Quit
              else if key.code == Char('f') && key.modifiers == {} then Flag
              else DecodeKey(key)
    ensures HandleInput(Received(ClassifyKey(key))) != Tick
  {
  }

  /** The producer's own keys are not in the decoder's table, so a raw `q` or `f`
      reaching the decoder would be passed through unchanged. */
  lemma ProducerKeysAreUnbound(key: KeyEvent)
    requires key.code == Char('q') || key.code == Char('f')
    ensures DecodeKey(key) == Input(key)
    ensures key.code !in Bindings
  {
  }
}
