/** The input manager of src/Input/InputManager.h: key and mouse-button
    state maps fed by events and settled once per frame. */
module Input {
  import opened KeyStates

  class InputManager {
    /** `mKeysStateMap` */
    var keys: map<Keycode, KeyState>
    /** `mMouseButtonStateMap` */
    var buttons: map<Button, KeyState>

    constructor ()
      ensures keys == map[] && buttons == map[]
    {
      keys := map[];
      buttons := map[];
    }

    /** One event. `anomaly` reports an up event for a key or button with
        no entry, where the source goes on to dereference `end()`; the
        model then leaves the map unchanged. */
    method FeedEvent(ev: Event) returns (anomaly: bool)
      modifies this
      ensures ev.KeyDown? && !ev.repeat ==> keys == Pressing(old(keys), ev.key)
      ensures ev.KeyUp? ==> keys == Releasing(old(keys), ev.key)
      ensures ev.MouseButtonDown? && ev.down ==> buttons == Pressing(old(buttons), ev.button)
      ensures ev.MouseButtonUp? ==> buttons == Releasing(old(buttons), ev.button)
      ensures !(ev.KeyDown? && !ev.repeat) && !ev.KeyUp? ==> keys == old(keys)
      ensures !(ev.MouseButtonDown? && ev.down) && !ev.MouseButtonUp? ==> buttons == old(buttons)
      ensures anomaly <==> (ev.KeyUp? && ev.key !in old(keys)) || (ev.MouseButtonUp? && ev.button !in old(buttons))
    {
      anomaly := false;
      match ev {
        case KeyDown(kc, repeat) =>
          if !repeat {
            keys := Pressing(keys, kc);
          }
        case KeyUp(kc) =>
          anomaly := kc !in keys;
          keys := Releasing(keys, kc);
        case MouseButtonDown(button, down) =>
          if down {
            buttons := Pressing(buttons, button);
          }
        case MouseButtonUp(button) =>
          anomaly := button !in buttons;
          buttons := Releasing(buttons, button);
        case OtherEvent =>
      }
    }

    /** Once per frame, after the events: both maps settle. The mouse
        position and delta are not modelled. */
    method Update()
      modifies this
      ensures keys == Settled(old(keys)) && buttons == Settled(old(buttons))
    {
      keys := Settle(keys);
      buttons := Settle(buttons);
    }

    function IsKeyPressed(k: Keycode): (r: bool)
      reads this
      ensures r ==> k in Settled(keys) && Settled(keys)[k] == Held
    {
      k in keys && keys[k] == Pressed
    }

    /** A key pressed this frame already counts as held. */
    function IsKeyHeld(k: Keycode): (r: bool)
      reads this
      ensures r ==> k in Settled(keys) && Settled(keys)[k] == Held
    {
      k in keys && (keys[k] == Held || keys[k] == Pressed)
    }

    function IsKeyReleased(k: Keycode): (r: bool)
      reads this
      ensures r ==> k !in Settled(keys)
    {
      k in keys && keys[k] == Released
    }

    function IsMouseButtonPressed(b: Button): (r: bool)
      reads this
      ensures r ==> b in Settled(buttons) && Settled(buttons)[b] == Held
    {
      b in buttons && buttons[b] == Pressed
    }

    /** Unlike `IsKeyHeld`, a button pressed this frame is not held yet. */
    function IsMouseButtonHeld(b: Button): (r: bool)
      reads this
      ensures r ==> b in Settled(buttons) && Settled(buttons)[b] == Held
    {
      b in buttons && buttons[b] == Held
    }

    function IsMouseButtonReleased(b: Button): (r: bool)
      reads this
      ensures r ==> b !in Settled(buttons)
    {
      b in buttons && buttons[b] == Released
    }
  }

  /** The key queries: pressed implies held, and held excludes released. */
  lemma KeyQueriesAgree(im: InputManager, k: Keycode)
    ensures im.IsKeyPressed(k) ==> im.IsKeyHeld(k)
    ensures !(im.IsKeyHeld(k) && im.IsKeyReleased(k))
  {
  }

  /** The mouse-button queries are mutually exclusive. */
  lemma ButtonQueriesExclusive(im: InputManager, b: Button)
    ensures !(im.IsMouseButtonPressed(b) && im.IsMouseButtonHeld(b))
    ensures !(im.IsMouseButtonHeld(b) && im.IsMouseButtonReleased(b))
    ensures !(im.IsMouseButtonPressed(b) && im.IsMouseButtonReleased(b))
  {
  }

  /** A key and a button pressed in the same frame: the key reads as held,
      the button does not, until the next update. */
  method PressedKeyHeldButtonNot(k: Keycode, b: Button) returns (keyHeld: bool, buttonHeld: bool, buttonHeldLater: bool)
    ensures keyHeld && !buttonHeld && buttonHeldLater
  {
    var im := new InputManager();
    var anomaly := im.FeedEvent(KeyDown(k, false));
    anomaly := im.FeedEvent(MouseButtonDown(b, true));
    keyHeld, buttonHeld := im.IsKeyHeld(k), im.IsMouseButtonHeld(b);
    im.Update();
    buttonHeldLater := im.IsMouseButtonHeld(b);
  }

  /** A press seen frame by frame: pressed, held, released, then gone;
      a repeat key-down in between changes nothing. */
  method KeyPressFrames(k: Keycode) returns (pressed: bool, held: bool, released: bool, gone: bool)
    ensures pressed && held && released && gone
  {
    var im := new InputManager();
    var anomaly := im.FeedEvent(KeyDown(k, false));
    pressed := im.IsKeyPressed(k);
    im.Update();
    anomaly := im.FeedEvent(KeyDown(k, true));
    held := im.IsKeyHeld(k) && !im.IsKeyPressed(k);
    anomaly := im.FeedEvent(KeyUp(k));
    released := im.IsKeyReleased(k) && !im.IsKeyHeld(k);
    im.Update();
    gone := k !in im.keys;
  }

  /** A key-up with no key-down before it is reported and changes nothing. */
  method KeyUpWithoutDown(k: Keycode) returns (anomaly: bool, empty: bool)
    ensures anomaly && empty
  {
    var im := new InputManager();
    anomaly := im.FeedEvent(KeyUp(k));
    empty := im.keys == map[];
  }
}
