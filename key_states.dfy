/** The per-key state machine shared by both input managers
    (src/Input/InputManager.h, InputManager.h): a map from key (or mouse
    button) to `KeyState`, changed by down and up events and settled once
    per frame. */
module KeyStates {

  datatype KeyState = None | Pressed | Held | Released

  /** `SDL_Keycode` (32-bit unsigned) and a mouse button number (`Uint8`). */
  type Keycode = k: int | 0 <= k < 0x1_0000_0000
  type Button = b: int | 0 <= b < 0x100

  /** The fields of an `SDL_Event` the input managers read. */
  datatype Event =
    | KeyDown(key: Keycode, repeat: bool)
    | KeyUp(key: Keycode)
    | MouseButtonDown(button: Button, down: bool)
    | MouseButtonUp(button: Button)
    | OtherEvent

  /** A key-down that is not a repeat: a key with no entry or in `None`
      becomes `Pressed`; a key already pressed, held or released keeps its
      state. No other key changes. */
  function Pressing<K>(m: map<K, KeyState>, k: K): (r: map<K, KeyState>)
    ensures k in r && r[k] != None
    ensures k in m && m[k] != None ==> r == m
    ensures k !in m || m[k] == None ==> r[k] == Pressed
    ensures r.Keys == m.Keys + {k}
    ensures forall j :: j in m && j != k ==> r[j] == m[j]
  {
    if k !in m || m[k] == None then m[k := Pressed] else m
  }

  /** A key-up: a pressed or held key becomes `Released`; a released or
      `None` key keeps its state; a key with no entry is left alone (the
      caller reports it). Afterwards the key is no longer down, and no
      other key changes. */
  function Releasing<K>(m: map<K, KeyState>, k: K): (r: map<K, KeyState>)
    ensures r.Keys == m.Keys
    ensures k in m ==> r[k] != Pressed && r[k] != Held
    ensures k in m && (m[k] == Pressed || m[k] == Held) ==> r[k] == Released
    ensures k !in m || m[k] == Released || m[k] == None ==> r == m
    ensures forall j :: j in m && j != k ==> r[j] == m[j]
  {
    if k in m && (m[k] == Pressed || m[k] == Held) then m[k := Released] else m
  }

  /** How one entry fares in the per-frame update, for entries that stay. */
  function Promote(s: KeyState): KeyState
  {
    if s == Pressed then Held else s
  }

  /** The map after the per-frame update: released entries are erased,
      pressed ones are held, held and `None` ones stay, nothing is added. */
  function Settled<K>(m: map<K, KeyState>): (r: map<K, KeyState>)
    ensures forall k :: k in r ==> k in m && m[k] != Released
    ensures forall k :: k in m && m[k] != Released ==> k in r
    ensures forall k :: k in m && m[k] == Pressed ==> r[k] == Held
    ensures forall k :: k in m && (m[k] == Held || m[k] == None) ==> r[k] == m[k]
    ensures forall k :: k in r ==> r[k] == Held || r[k] == None
  {
    map k | k in m && m[k] != Released :: Promote(m[k])
  }

  /** A second update in the same frame changes nothing. */
  lemma SettledIsIdempotent<K>(m: map<K, KeyState>)
    ensures Settled(Settled(m)) == Settled(m)
  {
    var once := Settled(m);
    var twice := Settled(once);
    assert twice.Keys == once.Keys;
    forall k | k in once ensures twice[k] == once[k] {
    }
  }

  /** A press lasts one frame as `Pressed`, is `Held` from the next frame
      until the key-up, is `Released` for one frame, and is then gone. */
  lemma PressLifecycle<K>(m: map<K, KeyState>, k: K)
    requires k !in m || m[k] == None
    ensures var pressed := Pressing(m, k);
      var held := Settled(pressed);
      var released := Releasing(held, k);
      var after := Settled(released);
      pressed[k] == Pressed && held[k] == Held && released[k] == Released && k !in after
  {
  }

  /** The update loop, erasing while it iterates: `r` is `Settled(m)`. */
  method Settle<K(==)>(m: map<K, KeyState>) returns (r: map<K, KeyState>)
    ensures r == Settled(m)
  {
    r := m;
    var pending := m.Keys;
    while pending != {}
      invariant pending <= m.Keys
      invariant forall k :: k in r ==> k in m
      invariant forall k :: k in pending ==> k in r && r[k] == m[k]
      invariant forall k :: k in m && k !in pending ==>
        (k in r <==> m[k] != Released) && (k in r ==> r[k] == Promote(m[k]))
      decreases pending
    {
      var k :| k in pending;
      pending := pending - {k};
      match r[k] {
        case Pressed =>
          r := r[k := Held];
        case Released =>
          r := r - {k};
        case _ =>
      }
    }
    assert r.Keys == Settled(m).Keys;
  }
}
