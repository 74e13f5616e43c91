/** Which output devices a routing strategy selects; a device mask is the set of its devices. */
module Strategy {

  datatype Device =
    | Earpiece | Speaker | WiredHeadset | WiredHeadphone
    | Sco | ScoHeadset | ScoCarkit
    | A2dp | A2dpHeadphones | A2dpSpeaker
    | AuxDigital | AnlgDock | DgtlDock | UsbAccessory | UsbDevice | Fm

  datatype Strategy = Media | Phone | Sonification | SonificationRespectful | Dtmf | EnforcedAudible

  datatype Force = ForceNone | ForceSpeaker | ForceBtSco | ForceNoBtA2dp | ForceOther

  /** The fields and outside answers the selection reads. */
  datatype Policy = Policy(
    available: set<Device>,
    defaultDevice: set<Device>,
    inCall: bool,             // in a call of any kind
    modeInCall: bool,         // in a telephony call
    communication: Force,
    media: Force,
    a2dpUsable: bool,         // A2DP supported, with an output, and not suspended
    fmAnalog: bool,
    enforcedCanBeMuted: bool,
    musicRemote: bool,        // music active on a remote device
    musicActive: bool,
    isA2dp: set<Device> -> bool,
    cache: Strategy -> set<Device>)

  /** The first of some devices that is available, or none. */
  function First(available: set<Device>, order: seq<Device>): (r: set<Device>)
    ensures r <= available && |r| <= 1
    ensures r == {} <==> forall d | d in order :: d !in available
  {
    if order == [] then {}
    else if order[0] in available then {order[0]}
    else
      var r := First(available, order[1..]);
      assert forall d | d in order :: d == order[0] || d in order[1..];
      r
  }

  lemma {:induction false} FirstIsFirst(available: set<Device>, order: seq<Device>, k: nat)
    requires k < |order| && order[k] in available && order[k] !in order[..k]
    ensures First(available, order) == {order[k]} <==> forall j | 0 <= j < k :: order[j] !in available
  {
    if k > 0 {
      assert order[1..][..k - 1] == order[..k][1..];
      FirstIsFirst(available, order[1..], k - 1);
      assert forall j | 0 <= j < k - 1 :: order[1..][j] == order[j + 1];
      assert order[0] in order[..k];
    }
  }

  function OrElse(a: set<Device>, b: set<Device>): set<Device> { if a != {} then a else b }

  // ----- The strategies -----

  function A2dpAllowed(p: Policy): bool { p.a2dpUsable && p.media != ForceNoBtA2dp }

  // The devices of the phone rules, by priority

  function ScoOrder(carkit: bool): seq<Device> {
    if carkit then [ScoCarkit, ScoHeadset, Sco] else [ScoHeadset, Sco]
  }

  function SpeakerOrder(offCall: bool): seq<Device> {
    (if offCall then [A2dpSpeaker] else []) + [UsbDevice, DgtlDock, AuxDigital, AnlgDock, Speaker]
  }

  function NormalOrder(offCall: bool): seq<Device> {
    (if offCall then [A2dp, A2dpHeadphones] else [])
    + [WiredHeadphone, WiredHeadset, UsbDevice, DgtlDock, AuxDigital, AnlgDock, Earpiece]
  }

  /** The phone rules; DTMF in a call passes over the car kit. */
  function PhoneDevice(p: Policy, carkit: bool): set<Device> {
    var sco := if p.communication == ForceBtSco then First(p.available, ScoOrder(carkit)) else {};
    var offCall := A2dpAllowed(p) && !p.inCall;
    var order := if p.communication == ForceSpeaker then SpeakerOrder(offCall) else NormalOrder(offCall);
    OrElse(OrElse(sco, First(p.available, order)), p.defaultDevice)
  }

  function MediaOrder(a2dp: bool): seq<Device> {
    (if a2dp then [A2dp, A2dpHeadphones, A2dpSpeaker] else [])
    + [WiredHeadphone, WiredHeadset, UsbAccessory, UsbDevice, DgtlDock, AuxDigital, AnlgDock, Speaker]
  }

  /** The media rules, from where media joins the strategies that may already hold the speaker. */
  function MediaDevice(p: Policy, strategy: Strategy, device: set<Device>): set<Device> {
    var speaker := p.available * {Speaker};
    var second := First(p.available, MediaOrder(A2dpAllowed(p) && !p.fmAnalog));
    // the default device is set only to be overwritten by the speaker case that follows
    var chosen := if p.media == ForceSpeaker then speaker else OrElse(device + second, speaker);
    var withFm := chosen + p.available * {Fm};
    if p.modeInCall && !p.isA2dp(withFm) && withFm != p.cache(Phone) && strategy == EnforcedAudible
       && p.enforcedCanBeMuted
    then p.cache(Phone)
    else withFm
  }

  function Rank(strategy: Strategy): nat {
    match strategy
    case SonificationRespectful => 2
    case Sonification => 1
    case Dtmf => 1
    case _ => 0
  }

  /** `getDeviceForStrategy` */
  function DeviceFor(p: Policy, strategy: Strategy, fromCache: bool): set<Device>
    decreases Rank(strategy)
  {
    if fromCache then p.cache(strategy)
    else
      match strategy
      case SonificationRespectful =>
        if p.inCall || p.musicRemote || !p.musicActive then DeviceFor(p, Sonification, false)
        else DeviceFor(p, Media, false)
      case Dtmf => if !p.inCall then DeviceFor(p, Media, false) else PhoneDevice(p, false)
      case Phone => PhoneDevice(p, true)
      case Sonification =>
        if p.inCall then DeviceFor(p, Phone, false)
        else if p.fmAnalog then p.available * {Speaker}
        else MediaDevice(p, strategy, p.available * {Speaker})
      case EnforcedAudible =>
        var device := if p.enforcedCanBeMuted then {} else p.available * {Speaker};
        if p.fmAnalog then device else MediaDevice(p, strategy, device)
      case Media => MediaDevice(p, strategy, {})
  }

  // ----- What it selects -----

  /** Given a cache within bounds, every selection is among the available devices or the default. */
  lemma {:induction false} WithinBounds(p: Policy, strategy: Strategy, fromCache: bool)
    requires forall s :: p.cache(s) <= p.available + p.defaultDevice
    ensures DeviceFor(p, strategy, fromCache) <= p.available + p.defaultDevice
    decreases Rank(strategy)
  {
    if !fromCache {
      match strategy
      case SonificationRespectful =>
        WithinBounds(p, Sonification, false);
        WithinBounds(p, Media, false);
      case Dtmf => WithinBounds(p, Media, false);
      case Sonification => WithinBounds(p, Phone, false);
      case _ =>
    }
  }

  lemma PhoneIsOneDevice(p: Policy)
    requires |p.defaultDevice| <= 1
    ensures |DeviceFor(p, Phone, false)| <= 1
  {
  }

  /** In a call the sonification strategies follow the phone, and DTMF does with the car kit hidden. */
  lemma InCallFollowsPhone(p: Policy)
    requires p.inCall
    ensures DeviceFor(p, Sonification, false) == DeviceFor(p, Phone, false)
    ensures DeviceFor(p, SonificationRespectful, false) == DeviceFor(p, Phone, false)
    ensures DeviceFor(p, Dtmf, false) == DeviceFor(p.(available := p.available - {ScoCarkit}), Phone, false)
  {
    PhoneRules(p);
    PhoneRules(p.(available := p.available - {ScoCarkit}));
    DtmfHidesCarkit(p);
  }

  lemma PhoneRules(p: Policy)
    ensures DeviceFor(p, Phone, false) == PhoneDevice(p, true)
    ensures p.inCall ==> DeviceFor(p, Dtmf, false) == PhoneDevice(p, false)
    ensures p.inCall ==> DeviceFor(p, Sonification, false) == PhoneDevice(p, true)
    ensures p.inCall ==> DeviceFor(p, SonificationRespectful, false) == PhoneDevice(p, true)
  {
  }

  lemma DtmfHidesCarkit(p: Policy)
    ensures PhoneDevice(p, false) == PhoneDevice(p.(available := p.available - {ScoCarkit}), true)
  {
    var offCall, hidden := A2dpAllowed(p) && !p.inCall, p.available - {ScoCarkit};
    FirstWithout(p.available, ScoCarkit, ScoOrder(false));
    FirstWithout(p.available, ScoCarkit, SpeakerOrder(offCall));
    FirstWithout(p.available, ScoCarkit, NormalOrder(offCall));
    FirstSkips(hidden, ScoOrder(true));
    assert ScoOrder(true)[1..] == ScoOrder(false);
  }

  lemma FirstSkips(available: set<Device>, order: seq<Device>)
    requires order != [] && order[0] !in available
    ensures First(available, order) == First(available, order[1..])
  {
  }

  lemma {:induction false} FirstWithout(available: set<Device>, d: Device, order: seq<Device>)
    requires d !in order
    ensures First(available - {d}, order) == First(available, order)
  {
    if order != [] {
      FirstWithout(available, d, order[1..]);
    }
  }

  // ----- The priorities, written out -----

  lemma {:induction false} FirstOfBoth(available: set<Device>, x: seq<Device>, y: seq<Device>)
    ensures First(available, x + y) == OrElse(First(available, x), First(available, y))
  {
    if x == [] {
      assert x + y == y;
    } else {
      assert (x + y)[1..] == x[1..] + y;
      FirstOfBoth(available, x[1..], y);
    }
  }

  /**
   * Who gets a phone call: a Bluetooth headset if forced; then, or if the speaker is forced, the
   * devices below in their order, those of A2DP only out of a call; at last the default device.
   */
  lemma PhonePriorities(p: Policy)
    ensures var a2dp := p.a2dpUsable && p.media != ForceNoBtA2dp && !p.inCall;
            var sco := if p.communication == ForceBtSco then [ScoCarkit, ScoHeadset, Sco] else [];
            var bluetooth :=
              if !a2dp then [] else if p.communication == ForceSpeaker then [A2dpSpeaker] else [A2dp, A2dpHeadphones];
            var wired := if p.communication == ForceSpeaker then [] else [WiredHeadphone, WiredHeadset];
            var docks := [UsbDevice, DgtlDock, AuxDigital, AnlgDock];
            var last := if p.communication == ForceSpeaker then Speaker else Earpiece;
            DeviceFor(p, Phone, false)
            == OrElse(First(p.available, sco + (bluetooth + (wired + docks + [last]))), p.defaultDevice)
  {
    var offCall := A2dpAllowed(p) && !p.inCall;
    var order := if p.communication == ForceSpeaker then SpeakerOrder(offCall) else NormalOrder(offCall);
    var docks := [UsbDevice, DgtlDock, AuxDigital, AnlgDock];
    assert [] + docks + [Speaker] == [UsbDevice, DgtlDock, AuxDigital, AnlgDock, Speaker];
    assert [WiredHeadphone, WiredHeadset] + docks + [Earpiece]
        == [WiredHeadphone, WiredHeadset, UsbDevice, DgtlDock, AuxDigital, AnlgDock, Earpiece];
    FirstOfBoth(p.available, if p.communication == ForceBtSco then ScoOrder(true) else [], order);
  }

  /** Who gets media: the speaker if forced, else the first of these; and FM besides. */
  lemma MediaPriorities(p: Policy)
    ensures var a2dp := p.a2dpUsable && p.media != ForceNoBtA2dp && !p.fmAnalog;
            var order := (if a2dp then [A2dp, A2dpHeadphones, A2dpSpeaker] else [])
                         + [WiredHeadphone, WiredHeadset, UsbAccessory, UsbDevice, DgtlDock, AuxDigital,
                            AnlgDock, Speaker];
            DeviceFor(p, Media, false)
            == (if p.media == ForceSpeaker then p.available * {Speaker} else First(p.available, order))
               + p.available * {Fm}
  {
    var second := First(p.available, MediaOrder(A2dpAllowed(p) && !p.fmAnalog));
    assert {} + second == second;
    MediaDevices(A2dpAllowed(p) && !p.fmAnalog);
    if second == {} {
      assert p.available * {Speaker} == {};
    }
  }

  /** Off call, tones go where media goes, and respectful alerts do too while music plays locally. */
  lemma OffCallRouting(p: Policy)
    requires !p.inCall
    ensures DeviceFor(p, Dtmf, false) == DeviceFor(p, Media, false)
    ensures DeviceFor(p, SonificationRespectful, false)
         == DeviceFor(p, if p.musicActive && !p.musicRemote then Media else Sonification, false)
  {
  }

  /** From the cache comes what is cached; with analog FM alerts have the speaker and nothing else. */
  lemma CachedAndAnalogRouting(p: Policy, strategy: Strategy)
    ensures DeviceFor(p, strategy, true) == p.cache(strategy)
    ensures p.fmAnalog && !p.inCall ==> DeviceFor(p, Sonification, false) == p.available * {Speaker}
    ensures p.fmAnalog ==>
              DeviceFor(p, EnforcedAudible, false) == if p.enforcedCanBeMuted then {} else p.available * {Speaker}
  {
  }

  /**
   * Enforced audible sounds go where media goes and, if they cannot be muted, to the speaker; in
   * a telephony call those that can be muted go where the phone does, unless that is A2DP.
   */
  lemma EnforcedAudibleRouting(p: Policy)
    requires !p.fmAnalog
    ensures var device := DeviceFor(p, Media, false) + if p.enforcedCanBeMuted then {} else p.available * {Speaker};
            DeviceFor(p, EnforcedAudible, false)
            == if p.modeInCall && p.enforcedCanBeMuted && !p.isA2dp(device) then p.cache(Phone) else device
  {
    var device := if p.enforcedCanBeMuted then {} else p.available * {Speaker};
    JoiningMedia(p, device);
    assert DeviceFor(p, EnforcedAudible, false) == MediaDevice(p, EnforcedAudible, device);
  }

  /** What the media rules make of nothing, or of the speaker. */
  lemma JoiningMedia(p: Policy, device: set<Device>)
    requires device == {} || device == p.available * {Speaker}
    ensures var speaker := p.available * {Speaker};
            var second := First(p.available, MediaOrder(A2dpAllowed(p) && !p.fmAnalog));
            (if p.media == ForceSpeaker then speaker else OrElse(device + second, speaker)) + p.available * {Fm}
            == DeviceFor(p, Media, false) + device
  {
    var second := First(p.available, MediaOrder(A2dpAllowed(p) && !p.fmAnalog));
    MediaDevices(A2dpAllowed(p) && !p.fmAnalog);
    assert second == {} ==> p.available * {Speaker} == {};
    assert {} + second == second;
    Rejoined(p.media == ForceSpeaker, p.available * {Speaker}, second, device, p.available * {Fm});
  }

  lemma Rejoined(force: bool, speaker: set<Device>, second: set<Device>, device: set<Device>, fm: set<Device>)
    requires device == {} || device == speaker
    requires second == {} ==> speaker == {}
    ensures (if force then speaker else OrElse(device + second, speaker)) + fm
         == (if force then speaker else OrElse(second, speaker)) + fm + device
  {
    assert device + second + fm == second + fm + device;
    assert device == {} ==> device + second == second;
    if device != {} {
      assert device + second != {};
      assert speaker + fm + speaker == speaker + fm;
    }
  }

  /** Out of a call and without analog FM, alerts go to the speaker and wherever media goes. */
  lemma AlertsAddTheSpeaker(p: Policy)
    requires !p.inCall && !p.fmAnalog
    ensures DeviceFor(p, Sonification, false) == p.available * {Speaker} + DeviceFor(p, Media, false)
  {
  }

  /** Media never falls back on the default device: it selects nothing exactly if nothing fits. */
  lemma MediaHasNoDefault(p: Policy)
    ensures DeviceFor(p, Media, false) <= p.available
    ensures p.media == ForceSpeaker ==>
              (DeviceFor(p, Media, false) == {} <==> p.available !! {Speaker, Fm})
    ensures p.media != ForceSpeaker ==>
              (DeviceFor(p, Media, false) == {} <==>
                 && p.available !! {WiredHeadphone, WiredHeadset, UsbAccessory, UsbDevice, DgtlDock,
                                    AuxDigital, AnlgDock, Speaker, Fm}
                 && (A2dpAllowed(p) && !p.fmAnalog ==> p.available !! {A2dp, A2dpHeadphones, A2dpSpeaker}))
  {
    var speaker, fm := p.available * {Speaker}, p.available * {Fm};
    var second := First(p.available, MediaOrder(A2dpAllowed(p) && !p.fmAnalog));
    assert {} + second == second;
    assert DeviceFor(p, Media, false) == (if p.media == ForceSpeaker then speaker else OrElse(second, speaker)) + fm;
    MediaDevices(A2dpAllowed(p) && !p.fmAnalog);
  }

  lemma MediaDevices(a2dp: bool)
    ensures forall d :: d in MediaOrder(a2dp) <==>
              || d in {WiredHeadphone, WiredHeadset, UsbAccessory, UsbDevice, DgtlDock, AuxDigital, AnlgDock, Speaker}
              || (a2dp && d in {A2dp, A2dpHeadphones, A2dpSpeaker})
  {
  }
}
