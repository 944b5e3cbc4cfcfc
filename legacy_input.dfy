/** The older, keys-only input manager of InputManager.h. It records the
    last event fed to it; mouse events reach no branch. */
module LegacyInput {
  import opened KeyStates

  class InputManager {
    /** `mKeysStateMap` */
    var keys: map<Keycode, KeyState>
    /** `mCurrentEvent`; the zero-initialised event reads as `OtherEvent`. */
    var currentEvent: Event
    /** `noPrevEvent`, set by the constructor and never changed. */
    var noPrevEvent: bool

    constructor ()
      ensures keys == map[] && currentEvent == OtherEvent && noPrevEvent
    {
      keys := map[];
      currentEvent := OtherEvent;
      noPrevEvent := true;
    }

    /** One event; `anomaly` as in the newer manager (a key-up for a key
        with no entry). */
    method FeedEvent(ev: Event) returns (anomaly: bool)
      modifies this
      ensures currentEvent == ev && noPrevEvent == old(noPrevEvent)
      ensures ev.KeyDown? && !ev.repeat ==> keys == Pressing(old(keys), ev.key)
      ensures ev.KeyUp? ==> keys == Releasing(old(keys), ev.key)
      ensures !(ev.KeyDown? && !ev.repeat) && !ev.KeyUp? ==> keys == old(keys)
      ensures anomaly <==> ev.KeyUp? && ev.key !in old(keys)
    {
      currentEvent := ev;
      anomaly := false;
      match ev {
        case KeyDown(kc, repeat) =>
          if !repeat {
            keys := Pressing(keys, kc);
          }
        case KeyUp(kc) =>
          anomaly := kc !in keys;
          keys := Releasing(keys, kc);
        case _ =>
      }
    }

    method Update()
      modifies this
      ensures keys == Settled(old(keys))
      ensures currentEvent == old(currentEvent) && noPrevEvent == old(noPrevEvent)
    {
      keys := Settle(keys);
    }

    function IsKeyPressed(k: Keycode): (r: bool)
      reads this
      ensures r ==> k in Settled(keys) && Settled(keys)[k] == Held
    {
      k in keys && keys[k] == Pressed
    }

    function IsKeyHeld(k: Keycode): (r: bool)
      reads this
      ensures r ==> k in Settled(keys) && Settled(keys)[k] == Held
    {
      k in keys && (keys[k] == Held || keys[k] == Pressed)
    }

    function IsKeyReleased(k: Keycode): (r: bool)
      reads this
      ensures r ==> k !in Settled(keys)
    {
      k in keys && keys[k] == Released
    }
  }

  /** Mouse events leave the keys-only manager's key map alone, even for a
      button number equal to a key code. */
  method MouseEventsIgnored(k: Keycode) returns (pressed: bool, released: bool)
    ensures pressed && !released
  {
    var im := new InputManager();
    var anomaly := im.FeedEvent(KeyDown(k, false));
    if k < 0x100 {
      anomaly := im.FeedEvent(MouseButtonUp(k));
    }
    pressed, released := im.IsKeyPressed(k), im.IsKeyReleased(k);
  }
}
