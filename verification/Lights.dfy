/**
 Sharing the notification LED between the battery and notifications.

 Each colour's LED node is driven through a cache of one status (off, blinking, steady). The cache
 alone is not enough to keep a node up to date; the arbitration above it is.
 */
module Lights {

  /** What an LED does. */
  datatype Display = Off | Blinking(onMS: int, offMS: int) | Steady(level: int)

  function Status(d: Display): int {
    match d case Off => 0 case Blinking(_, _) => 1 case Steady(_) => 2
  }

  const FULL := 255

  predicate Proper(d: Display) {
    (d.Steady? ==> d.level == FULL) && (d.Blinking? ==> d.onMS != 0 && d.offMS != 0)
  }

  /** What blink_xxx is asked to show. */
  function Wanted(level: int, onMS: int, offMS: int): (d: Display)
    ensures Proper(d)
  {
    if level == 0 then Off else if onMS != 0 && offMS != 0 then Blinking(onMS, offMS) else Steady(FULL)
  }

  /** What the node shows after blink_xxx: nothing is written while the status stays the same. */
  function AfterBlink(shown: Display, wanted: Display): Display {
    if Status(shown) == Status(wanted) then shown else wanted
  }

  /** The status cache is stale exactly for a new pair of delays on an LED that already blinks. */
  lemma CacheStaleIff(shown: Display, wanted: Display)
    requires Proper(shown) && Proper(wanted)
    ensures AfterBlink(shown, wanted) == wanted <==> !(shown.Blinking? && wanted.Blinking? && shown != wanted)
  {
  }

  // ----- light states -----

  datatype FlashMode = FlashNone | FlashTimed | FlashHardware

  datatype LightState = LightState(color: int, flashMode: FlashMode, flashOnMS: int, flashOffMS: int)

  const DARK := LightState(0, FlashNone, 0, 0)

  predicate IsLit(state: LightState) {
    state.color % 0x100_0000 != 0
  }

  /** A colour's byte, 0 when the alpha byte is. */
  function Component(state: LightState, unit: int): int
    requires unit > 0
  {
    if state.color / 0x100_0000 % 0x100 == 0 then 0 else state.color / unit % 0x100
  }

  function OnMS(state: LightState): int {
    if state.flashMode == FlashTimed then state.flashOnMS else 0
  }

  function OffMS(state: LightState): int {
    if state.flashMode == FlashTimed then state.flashOffMS else 0
  }

  const RED := 0x1_0000
  const GREEN := 0x100
  const BLUE := 1

  /** What one colour of a light state looks like. */
  function Shows(state: LightState, unit: int): (d: Display)
    requires unit > 0
    ensures Proper(d)
  {
    Wanted(Component(state, unit), OnMS(state), OffMS(state))
  }

  datatype Panel = Panel(red: Display, green: Display, blue: Display)

  function Shown(state: LightState): Panel {
    Panel(Shows(state, RED), Shows(state, GREEN), Shows(state, BLUE))
  }

  // ----- the arbitration, through the caches -----

  /** set_speaker_light_locked on one colour: off first, then on if the colour has a level. */
  function SetColor(shown: Display, state: LightState, unit: int): Display
    requires unit > 0
  {
    var off := AfterBlink(shown, Off);
    if Component(state, unit) != 0 then AfterBlink(off, Shows(state, unit)) else off
  }

  function SetSpeaker(p: Panel, state: LightState): Panel {
    Panel(SetColor(p.red, state, RED), SetColor(p.green, state, GREEN), SetColor(p.blue, state, BLUE))
  }

  datatype Board = Board(panel: Panel, battery: LightState, notification: LightState)

  function HandleSpeakerBattery(b: Board): Board {
    if IsLit(b.battery) then b.(panel := SetSpeaker(b.panel, b.battery))
    else b.(panel := SetSpeaker(SetSpeaker(b.panel, b.battery), b.notification))
  }

  datatype Call = SetBattery(state: LightState) | SetNotifications(state: LightState)

  function Step(b: Board, call: Call, trackball: bool): Board {
    match call
    case SetBattery(state) =>
      var b1 := b.(battery := state);
      HandleSpeakerBattery(if trackball then b1.(panel := SetSpeaker(b1.panel, state)) else b1)
    case SetNotifications(state) => HandleSpeakerBattery(b.(notification := state))
  }

  function Run(b: Board, calls: seq<Call>, trackball: bool): Board {
    if calls == [] then b else Step(Run(b, calls[..|calls| - 1], trackball), calls[|calls| - 1], trackball)
  }

  /** The last battery state set, `before` if none was. */
  function LatestBattery(calls: seq<Call>, before: LightState): LightState {
    if calls == [] then before
    else if calls[|calls| - 1].SetBattery? then calls[|calls| - 1].state
    else LatestBattery(calls[..|calls| - 1], before)
  }

  function LatestNotification(calls: seq<Call>, before: LightState): LightState {
    if calls == [] then before
    else if calls[|calls| - 1].SetNotifications? then calls[|calls| - 1].state
    else LatestNotification(calls[..|calls| - 1], before)
  }

  /** Going through off defeats the cache: the panel shows the state, whatever it showed before. */
  lemma SetSpeakerForgets(p: Panel, state: LightState)
    ensures SetSpeaker(p, state) == Shown(state)
  {
  }

  /**
   After any non-empty sequence of calls the panel shows the latest battery state if that is lit,
   otherwise the latest notification. Nothing else leaves a trace: not earlier calls, not what the
   LEDs showed at the start, not the extra calls for the trackball and for the boot workaround.
   */
  lemma {:induction false} HistoryIndependent(b: Board, calls: seq<Call>, trackball: bool)
    ensures var r := Run(b, calls, trackball);
            && r.battery == LatestBattery(calls, b.battery)
            && r.notification == LatestNotification(calls, b.notification)
            && (calls != [] ==> r.panel == Shown(if IsLit(r.battery) then r.battery else r.notification))
  {
    hide SetSpeaker, Shown, IsLit;
    if calls != [] {
      var before := Run(b, calls[..|calls| - 1], trackball);
      HistoryIndependent(b, calls[..|calls| - 1], trackball);
      forall p: Panel, state: LightState
        ensures SetSpeaker(p, state) == Shown(state)
      {
        SetSpeakerForgets(p, state);
      }
    }
  }

  const ALL_OFF := Panel(Off, Off, Off)

  predicate Transparent(state: LightState) {
    state.color / 0x100_0000 % 0x100 == 0
  }

  /** A state lights no LED exactly when it has no colour or no alpha. */
  lemma ShowsNothingIff(state: LightState)
    ensures Shown(state) == ALL_OFF <==> !IsLit(state) || Transparent(state)
  {
    ColourBytes(state.color);
  }

  lemma ColourBytes(color: int)
    ensures color % 0x100_0000 == 0
       <==> color / RED % 0x100 == 0 && color / GREEN % 0x100 == 0 && color / BLUE % 0x100 == 0
  {
    var high := color / 0x1_0000;
    assert color / 0x100 / 0x100 == high && high / 0x100 == color / 0x100_0000;
    assert color == 0x100 * (color / 0x100) + color % 0x100;
    assert color / 0x100 == 0x100 * high + color / 0x100 % 0x100;
    assert high == 0x100 * (color / 0x100_0000) + high % 0x100;
    assert color % 0x100_0000 == 0x1_0000 * (high % 0x100) + 0x100 * (color / 0x100 % 0x100) + color % 0x100;
  }

  /**
   A notification that would show something shows up, after any calls, unless the battery has the
   panel: a battery state that shows nothing leaves it alone exactly when it is not lit, and the
   panel is dark exactly when the battery state has a colour but no alpha.
   */
  lemma TransparentBatteryHides(b: Board, calls: seq<Call>, trackball: bool)
    requires calls != [] && Shown(LatestNotification(calls, b.notification)) != ALL_OFF
    ensures var battery := LatestBattery(calls, b.battery);
            var panel := Run(b, calls, trackball).panel;
            && (panel == ALL_OFF <==> IsLit(battery) && Transparent(battery))
            && (Shown(battery) == ALL_OFF ==>
                  (panel == Shown(LatestNotification(calls, b.notification)) <==> !IsLit(battery)))
  {
    hide Shown, IsLit, Transparent, Run;
    HistoryIndependent(b, calls, trackball);
    ShowsNothingIff(LatestBattery(calls, b.battery));
  }

  // ----- the panel, byte by byte -----

  /** One LED under a state with these delays: dark, steady at full level, or blinking with exactly the delays. */
  predicate Follows(d: Display, lit: bool, state: LightState) {
    if !lit then d == Off
    else if state.flashMode == FlashTimed && state.flashOnMS != 0 && state.flashOffMS != 0
      then d == Blinking(state.flashOnMS, state.flashOffMS)
    else d == Steady(255)
  }

  lemma BytesOf(state: LightState, a: int, r: int, g: int, b: int)
    requires state.color == 0x100_0000 * a + 0x1_0000 * r + 0x100 * g + b
    requires 0 <= a < 0x100 && 0 <= r < 0x100 && 0 <= g < 0x100 && 0 <= b < 0x100
    ensures Component(state, RED) == (if a == 0 then 0 else r)
    ensures Component(state, GREEN) == (if a == 0 then 0 else g)
    ensures Component(state, BLUE) == (if a == 0 then 0 else b)
    ensures IsLit(state) <==> r != 0 || g != 0 || b != 0
  {
    var color := state.color;
    assert color / 0x100 == 0x1_0000 * a + 0x100 * r + g && color % 0x100 == b;
    assert color / 0x1_0000 == 0x100 * a + r && color / 0x100 % 0x100 == g;
    assert color / 0x100_0000 == a && color / 0x1_0000 % 0x100 == r;
    assert color % 0x100_0000 == 0x1_0000 * r + 0x100 * g + b;
  }

  /** A state's red, green and blue bytes light the LEDs of those colours, all of them only under an alpha. */
  lemma ShownByBytes(state: LightState, a: int, r: int, g: int, b: int)
    requires state.color == 0x100_0000 * a + 0x1_0000 * r + 0x100 * g + b
    requires 0 <= a < 0x100 && 0 <= r < 0x100 && 0 <= g < 0x100 && 0 <= b < 0x100
    ensures Follows(Shown(state).red, a != 0 && r != 0, state)
    ensures Follows(Shown(state).green, a != 0 && g != 0, state)
    ensures Follows(Shown(state).blue, a != 0 && b != 0, state)
  {
    BytesOf(state, a, r, g, b);
    hide Component;
  }

  /**
   After any calls the deciding state, the latest battery state if its colour bytes are not all zero
   and else the latest notification, is on the panel: written 0xAARRGGBB, each of its colours is lit
   exactly when its byte and the alpha are not zero, and a lit LED blinks with exactly the state's
   delays if the state is timed with two delays, and else is steady at 255.
   */
  lemma PanelFollowsBytes(board: Board, calls: seq<Call>, trackball: bool, a: int, r: int, g: int, b: int)
    requires calls != []
    requires 0 <= a < 0x100 && 0 <= r < 0x100 && 0 <= g < 0x100 && 0 <= b < 0x100
    requires var battery := LatestBattery(calls, board.battery);
             var state := if battery.color % 0x100_0000 != 0 then battery
                          else LatestNotification(calls, board.notification);
             state.color == 0x100_0000 * a + 0x1_0000 * r + 0x100 * g + b
    ensures var battery := LatestBattery(calls, board.battery);
            var state := if battery.color % 0x100_0000 != 0 then battery
                         else LatestNotification(calls, board.notification);
            var panel := Run(board, calls, trackball).panel;
            && Follows(panel.red, a != 0 && r != 0, state)
            && Follows(panel.green, a != 0 && g != 0, state)
            && Follows(panel.blue, a != 0 && b != 0, state)
  {
    hide Shown, Run, Follows;
    HistoryIndependent(board, calls, trackball);
    var battery := LatestBattery(calls, board.battery);
    var state := if battery.color % 0x100_0000 != 0 then battery else LatestNotification(calls, board.notification);
    ShownByBytes(state, a, r, g, b);
  }

  /** The LED follows the colour byte at `unit`, if the top byte, alpha, is not zero. */
  predicate FollowsByte(d: Display, state: LightState, unit: int)
    requires unit > 0
  {
    Follows(d, state.color / 0x100_0000 % 0x100 != 0 && state.color / unit % 0x100 != 0, state)
  }

  lemma HandledPanel(b: Board)
    ensures var state := if b.battery.color % 0x100_0000 != 0 then b.battery else b.notification;
            var panel := HandleSpeakerBattery(b).panel;
            && FollowsByte(panel.red, state, 0x1_0000)
            && FollowsByte(panel.green, state, 0x100)
            && FollowsByte(panel.blue, state, 1)
  {
    hide SetSpeaker;
    forall p: Panel, state: LightState
      ensures SetSpeaker(p, state) == Shown(state)
    {
      SetSpeakerForgets(p, state);
    }
  }

  // ----- the LED nodes -----

  datatype Trigger = NoTrigger | TimerTrigger

  /** One colour's files under /sys/class/leds, its status cache and blink_xxx. */
  class Led {
    var preStatus: int
    var trigger: Trigger
    var brightness: int
    var delayOn: int
    var delayOff: int

    /** What the node does; writing brightness 0 removes the trigger. */
    ghost function Glow(): Display
      reads this
    {
      if trigger == TimerTrigger then Blinking(delayOn, delayOff)
      else if brightness == 0 then Off else Steady(brightness)
    }

    /** The cache tells the node's status. */
    ghost predicate Valid()
      reads this
    {
      preStatus == Status(Glow()) && Proper(Glow())
    }

    constructor ()
      ensures Valid() && Glow() == Off
    {
      preStatus, trigger, brightness, delayOn, delayOff := 0, NoTrigger, 0, 0, 0;
    }

    method WriteBrightness(value: int)
      modifies this`brightness, this`trigger
      ensures brightness == value && trigger == if value == 0 then NoTrigger else old(trigger)
    {
      brightness := value;
      if value == 0 {
        trigger := NoTrigger;
      }
    }

    /** Choosing a trigger, or none, leaves the LED dark until something lights it. */
    method WriteTrigger(t: Trigger)
      modifies this`trigger, this`brightness
      ensures trigger == t && brightness == 0
    {
      trigger := t;
      brightness := 0;
    }

    /** blink_red, blink_green and blink_blue. */
    method Blink(level: int, onMS: int, offMS: int) returns (r: int)
      requires Valid()
      modifies this
      ensures Valid()
      ensures Glow() == AfterBlink(old(Glow()), Wanted(level, onMS, offMS))
      ensures r == if old(preStatus) == Status(Wanted(level, onMS, offMS)) then -1 else 0
    {
      var nowStatus;
      if level == 0 {
        nowStatus := 0;
      } else if onMS != 0 && offMS != 0 {
        nowStatus := 1;
      } else {
        nowStatus := 2;
      }
      if preStatus == nowStatus {
        return -1;
      }
      if nowStatus == 0 {
        WriteBrightness(0);
      } else if nowStatus == 1 {
        WriteTrigger(TimerTrigger);
        delayOff := offMS;
        delayOn := onMS;
      } else {
        WriteTrigger(NoTrigger);
        WriteBrightness(255);
      }
      preStatus := nowStatus;
      r := 0;
    }
  }

  class LightsDevice {
    const red: Led
    const green: Led
    const blue: Led
    const haveTrackball: bool
    var battery: LightState
    var notification: LightState

    ghost predicate Valid()
      reads this, red, green, blue
    {
      red != green && green != blue && red != blue && red.Valid() && green.Valid() && blue.Valid()
    }

    ghost function View(): Board
      reads this, red, green, blue
    {
      Board(Panel(red.Glow(), green.Glow(), blue.Glow()), battery, notification)
    }

    /** The LEDs follow the battery state if any of its colour bytes is set, and else the notification. */
    ghost predicate NodesFollow()
      reads this, red, green, blue
    {
      var state := if battery.color % 0x100_0000 != 0 then battery else notification;
      && FollowsByte(red.Glow(), state, 0x1_0000)
      && FollowsByte(green.Glow(), state, 0x100)
      && FollowsByte(blue.Glow(), state, 1)
    }

    constructor (haveTrackball: bool)
      ensures Valid() && fresh(red) && fresh(green) && fresh(blue)
      ensures View() == Board(Panel(Off, Off, Off), DARK, DARK) && this.haveTrackball == haveTrackball
    {
      red := new Led();
      green := new Led();
      blue := new Led();
      this.haveTrackball := haveTrackball;
      battery, notification := DARK, DARK;
    }

    /** set_speaker_light_locked. */
    method SetSpeakerLight(state: LightState)
      requires Valid()
      modifies red, green, blue
      ensures Valid() && View() == old(View()).(panel := SetSpeaker(old(View()).panel, state))
    {
      var onMS, offMS := 0, 0;
      if state.flashMode == FlashTimed {
        onMS := state.flashOnMS;
        offMS := state.flashOffMS;
      }
      var r, g, b := 0, 0, 0;
      var alpha := state.color / 0x100_0000 % 0x100;
      if alpha != 0 {
        r := state.color / 0x1_0000 % 0x100;
        g := state.color / 0x100 % 0x100;
        b := state.color % 0x100;
      }
      assert r == Component(state, RED) && g == Component(state, GREEN) && b == Component(state, BLUE);
      var _ := red.Blink(0, 0, 0);
      var _ := green.Blink(0, 0, 0);
      var _ := blue.Blink(0, 0, 0);
      if r != 0 {
        var _ := red.Blink(r, onMS, offMS);
      }
      if g != 0 {
        var _ := green.Blink(g, onMS, offMS);
      }
      if b != 0 {
        var _ := blue.Blink(b, onMS, offMS);
      }
    }

    method HandleBattery()
      requires Valid()
      modifies red, green, blue
      ensures Valid() && View() == HandleSpeakerBattery(old(View()))
      ensures NodesFollow()
    {
      hide SetSpeaker, FollowsByte;
      HandledPanel(View());
      if IsLit(battery) {
        SetSpeakerLight(battery);
      } else {
        SetSpeakerLight(battery);
        SetSpeakerLight(notification);
      }
    }

    method SetLightBattery(state: LightState)
      requires Valid()
      modifies this, red, green, blue
      ensures Valid() && View() == Step(old(View()), SetBattery(state), haveTrackball)
      ensures NodesFollow() && battery == state && notification == old(notification)
    {
      battery := state;
      if haveTrackball {
        SetSpeakerLight(state);
      }
      HandleBattery();
    }

    method SetLightNotifications(state: LightState)
      requires Valid()
      modifies this, red, green, blue
      ensures Valid() && View() == Step(old(View()), SetNotifications(state), haveTrackball)
      ensures NodesFollow() && notification == state && battery == old(battery)
    {
      notification := state;
      HandleBattery();
    }
  }
}
