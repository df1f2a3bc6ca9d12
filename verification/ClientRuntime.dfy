/** applyRuntimeClientDataFields and normalizeClientDataForVersion: the whole version-gated run of
    edits over a client-data payload, as text and as a tree. */
module ClientRuntime {
  import opened Wrappers
  import opened Text
  import opened JsonTree
  import opened JsonEdit
  import opened JsonTail
  import opened TreeEdit
  import opened ClientFields
  import opened ClientData
  import opened Version

  /** The caller's arguments, and the two clock readings and two random ids a run draws. */
  datatype Inputs = Inputs(
    displayName: string, version: string, uuid: string, serverAddress: string,
    now: int, playFabId: string, lateNow: int, latePlayFabId: string)

  predicate HexId(s: string) {
    |s| == 16 && forall i | 0 <= i < |s| :: IsDigit(s[i]) || 'a' <= s[i] <= 'f'
  }

  /** No argument equals a field name or ends in a quote and a field name. */
  ghost predicate GoodInputs(p: Inputs) {
    && Harmless(p.displayName) && Harmless(p.version) && Harmless(p.uuid) && Harmless(p.serverAddress)
    && HexId(p.playFabId) && HexId(p.latePlayFabId)
  }

  // ---------- the scripts ----------

  /** The string fields, in call order. */
  function StringEdit(p: Inputs, i: nat): Edit {
    if i == 0 then SetString(ThirdPartyName, p.displayName)
    else if i == 1 then SetString(GameVersion, p.version)
    else if i == 2 then SetString(DeviceId, p.uuid)
    else if i == 3 then SetString(SelfSignedId, p.uuid)
    else if i == 4 then SetString(ServerAddress, p.serverAddress)
    else if i == 5 then SetString(DeviceModel, "PrismarineJS")
    else if i == 6 then SetString(LanguageCode, "en_GB")
    else if i == 7 then SetString(PlatformOfflineId, "")
    else if i == 8 then SetString(PlatformOnlineId, "")
    else if i == 9 then SetString(PlayFabId, p.playFabId)
    else Keep
  }

  function Strings(p: Inputs): seq<Edit> {
    seq(10, i requires 0 <= i => StringEdit(p, i))
  }

  /** The integer fields and the one unconditional flag. */
  function IntEdit(p: Inputs, i: nat): Edit {
    if i == 0 then SetInt(ClientRandomId, p.now)
    else if i == 1 then SetInt(CurrentInputMode, 1)
    else if i == 2 then SetInt(DefaultInputMode, 1)
    else if i == 3 then SetInt(DeviceOS, 7)
    else if i == 4 then SetInt(GraphicsMode, 1)
    else if i == 5 then SetInt(GuiScale, -1)
    else if i == 6 then SetInt(UIProfile, 0)
    else if i == 7 then SetBool(IsEditorMode, false)
    else Keep
  }

  function Ints(p: Inputs): seq<Edit> {
    seq(8, i requires 0 <= i => IntEdit(p, i))
  }

  function Base(p: Inputs): seq<Edit> {
    Strings(p) + Ints(p)
  }

  function When(gate: bool, e: Edit): Edit {
    if gate then e else Keep
  }

  /** The fields only newer versions carry. */
  function GatedEdit(v: seq<int>, i: nat): Edit
    requires |v| >= 3
  {
    if i == 0 then When(AtLeast(v, 1, 19, 20), SetBool(TrustedSkin, false))
    else if i == 1 then When(AtLeast(v, 1, 19, 62), SetBool(OverrideSkin, false))
    else if i == 2 then When(AtLeast(v, 1, 19, 80), SetBool(CompatibleWithClientSideChunkGen, false))
    else if i == 3 then When(AtLeast(v, 1, 21, 42), SetInt(MaxViewDistance, 0))
    else if i == 4 then When(AtLeast(v, 1, 21, 42), SetInt(MemoryTier, 0))
    else if i == 5 then When(AtLeast(v, 1, 21, 42), SetInt(PlatformType, 0))
    else Keep
  }

  function Gated(v: seq<int>): seq<Edit>
    requires |v| >= 3
  {
    seq(6, i requires 0 <= i => GatedEdit(v, i))
  }

  function ThirdPartyEdit(v: seq<int>): Edit
    requires |v| >= 3
  {
    if !AtLeast(v, 1, 21, 90) then AddBool(UIProfile, ThirdPartyNameOnly, false) else Remove(ThirdPartyNameOnly)
  }

  /** The calls of normalizeClientDataForVersion. */
  function NormalizeEdit(p: Inputs, v: seq<int>, i: nat): Edit
    requires |v| >= 3
  {
    if i == 0 then When(!AtLeast(v, 1, 19, 20), Remove(TrustedSkin))
    else if i == 1 then When(!AtLeast(v, 1, 19, 62), Remove(OverrideSkin))
    else if i == 2 then When(!AtLeast(v, 1, 19, 80), Remove(CompatibleWithClientSideChunkGen))
    else if i == 3 then When(!AtLeast(v, 1, 21, 42), Remove(MaxViewDistance))
    else if i == 4 then When(!AtLeast(v, 1, 21, 42), Remove(MemoryTier))
    else if i == 5 then When(!AtLeast(v, 1, 21, 42), Remove(PlatformType))
    else if i == 6 then ThirdPartyEdit(v)
    else if i == 7 then ReplaceInt(ClientRandomId, p.lateNow)
    else if i == 8 then ReplaceString(PlayFabId, p.latePlayFabId)
    else Keep
  }

  function Normalize(p: Inputs, v: seq<int>): seq<Edit>
    requires |v| >= 3
  {
    seq(9, i requires 0 <= i => NormalizeEdit(p, v, i))
  }

  function Script(p: Inputs, v: seq<int>): seq<Edit>
    requires |v| >= 3
  {
    Base(p) + (Gated(v) + Normalize(p, v))
  }

  // ---------- the C++ routines ----------

  method SetStrings(payload: JsonText, p: Inputs)
    modifies payload
    ensures payload.json == RunText(old(payload.json), Strings(p))
  {
    hide RunText, Ran, AtLeast;
    ghost var t, script := payload.json, Strings(p);
    RanNone(t, script);
    Run(payload, t, script, 0, SetString(ThirdPartyName, p.displayName));
    Run(payload, t, script, 1, SetString(GameVersion, p.version));
    Run(payload, t, script, 2, SetString(DeviceId, p.uuid));
    Run(payload, t, script, 3, SetString(SelfSignedId, p.uuid));
    Run(payload, t, script, 4, SetString(ServerAddress, p.serverAddress));
    Run(payload, t, script, 5, SetString(DeviceModel, "PrismarineJS"));
    Run(payload, t, script, 6, SetString(LanguageCode, "en_GB"));
    Run(payload, t, script, 7, SetString(PlatformOfflineId, ""));
    Run(payload, t, script, 8, SetString(PlatformOnlineId, ""));
    Run(payload, t, script, 9, SetString(PlayFabId, p.playFabId));
    RanAll(payload.json, t, script);
  }

  method SetInts(payload: JsonText, p: Inputs)
    modifies payload
    ensures payload.json == RunText(old(payload.json), Ints(p))
  {
    hide RunText, Ran, AtLeast;
    ghost var t, script := payload.json, Ints(p);
    RanNone(t, script);
    Run(payload, t, script, 0, SetInt(ClientRandomId, p.now));
    Run(payload, t, script, 1, SetInt(CurrentInputMode, 1));
    Run(payload, t, script, 2, SetInt(DefaultInputMode, 1));
    Run(payload, t, script, 3, SetInt(DeviceOS, 7));
    Run(payload, t, script, 4, SetInt(GraphicsMode, 1));
    Run(payload, t, script, 5, SetInt(GuiScale, -1));
    Run(payload, t, script, 6, SetInt(UIProfile, 0));
    Run(payload, t, script, 7, SetBool(IsEditorMode, false));
    RanAll(payload.json, t, script);
  }

  method SetGated(payload: JsonText, v: seq<int>)
    requires |v| >= 3
    modifies payload
    ensures payload.json == RunText(old(payload.json), Gated(v))
  {
    hide RunText, Ran, AtLeast;
    ghost var t, script := payload.json, Gated(v);
    RanNone(t, script);
    Run(payload, t, script, 0, When(AtLeast(v, 1, 19, 20), SetBool(TrustedSkin, false)));
    Run(payload, t, script, 1, When(AtLeast(v, 1, 19, 62), SetBool(OverrideSkin, false)));
    Run(payload, t, script, 2, When(AtLeast(v, 1, 19, 80), SetBool(CompatibleWithClientSideChunkGen, false)));
    Run(payload, t, script, 3, When(AtLeast(v, 1, 21, 42), SetInt(MaxViewDistance, 0)));
    Run(payload, t, script, 4, When(AtLeast(v, 1, 21, 42), SetInt(MemoryTier, 0)));
    Run(payload, t, script, 5, When(AtLeast(v, 1, 21, 42), SetInt(PlatformType, 0)));
    RanAll(payload.json, t, script);
  }

  /** normalizeClientDataForVersion; true when reading the version throws. */
  method NormalizeClientDataForVersion(payload: JsonText, p: Inputs) returns (threw: bool)
    modifies payload
    ensures threw <==> VersionParts(p.version).None?
    ensures payload.json ==
            if threw then old(payload.json)
            else RunText(old(payload.json), Normalize(p, VersionParts(p.version).value))
  {
    var parts := ParseVersionParts(p.version);
    if parts.None? {
      return true;
    }
    NormalizeFor(payload, p, parts.value);
    return false;
  }

  method NormalizeFor(payload: JsonText, p: Inputs, v: seq<int>)
    requires |v| >= 3
    modifies payload
    ensures payload.json == RunText(old(payload.json), Normalize(p, v))
  {
    hide RunText, Ran, AtLeast;
    ghost var t, script := payload.json, Normalize(p, v);
    RanNone(t, script);
    Run(payload, t, script, 0, When(!AtLeast(v, 1, 19, 20), Remove(TrustedSkin)));
    Run(payload, t, script, 1, When(!AtLeast(v, 1, 19, 62), Remove(OverrideSkin)));
    Run(payload, t, script, 2, When(!AtLeast(v, 1, 19, 80), Remove(CompatibleWithClientSideChunkGen)));
    Run(payload, t, script, 3, When(!AtLeast(v, 1, 21, 42), Remove(MaxViewDistance)));
    Run(payload, t, script, 4, When(!AtLeast(v, 1, 21, 42), Remove(MemoryTier)));
    Run(payload, t, script, 5, When(!AtLeast(v, 1, 21, 42), Remove(PlatformType)));
    Run(payload, t, script, 6, ThirdPartyEdit(v));
    Run(payload, t, script, 7, ReplaceInt(ClientRandomId, p.lateNow));
    Run(payload, t, script, 8, ReplaceString(PlayFabId, p.latePlayFabId));
    RanAll(payload.json, t, script);
  }

  /** applyRuntimeClientDataFields; true when reading the version throws, which leaves the payload
      with the unconditional fields set. */
  method ApplyRuntimeClientDataFields(payload: JsonText, p: Inputs) returns (threw: bool)
    modifies payload
    ensures threw <==> VersionParts(p.version).None?
    ensures payload.json ==
            RunText(old(payload.json), if threw then Base(p) else Script(p, VersionParts(p.version).value))
  {
    ghost var t := payload.json;
    SetStrings(payload, p);
    SetInts(payload, p);
    RunTextConcat(t, Strings(p), Ints(p));
    var parts := ParseVersionParts(p.version);
    if parts.None? {
      return true;
    }
    ghost var t2 := payload.json;
    SetGated(payload, parts.value);
    threw := NormalizeClientDataForVersion(payload, p);
    RunTextConcat(t2, Gated(parts.value), Normalize(p, parts.value));
    RunTextConcat(t, Base(p), Gated(parts.value) + Normalize(p, parts.value));
  }

  /** The text is `t` after the first k edits of a script. */
  ghost predicate Ran(now: string, t: string, script: seq<Edit>, k: nat)
    requires k <= |script|
  {
    now == RunText(t, script[..k])
  }

  /** One call of the routine an edit names: the k-th of a script run from text `t`. */
  method Run(payload: JsonText, ghost t: string, ghost script: seq<Edit>, ghost k: nat, e: Edit)
    requires k < |script| && script[k] == e && Ran(payload.json, t, script, k)
    modifies payload
    ensures Ran(payload.json, t, script, k + 1)
  {
    assert script[..k + 1] == script[..k] + [e];
    RunTextConcat(t, script[..k], [e]);
    RunOne(payload.json, e);
    match e
    case SetString(f, text) => payload.SetJsonStringValue(BEFORE, Name(f), text);
    case SetInt(f, n) => payload.SetJsonIntValue(BEFORE, Name(f), n);
    case SetBool(f, b) => payload.SetJsonBoolValue(BEFORE, Name(f), b);
    case Remove(f) => var _ := payload.RemoveJsonKeyValue(Name(f));
    case AddBool(before, f, b) => payload.AddJsonRawBeforeKey(Name(before), Name(f), BoolText(b));
    case ReplaceString(f, text) => payload.ReplaceJsonStringValue(Name(f), text);
    case ReplaceInt(f, n) => var _ := payload.ReplaceJsonIntValue(Name(f), n);
    case Keep =>
  }

  lemma RanNone(t: string, script: seq<Edit>)
    ensures Ran(t, t, script, 0)
  {
    assert script[..0] == [];
  }

  lemma RanAll(now: string, t: string, script: seq<Edit>)
    requires Ran(now, t, script, |script|)
    ensures now == RunText(t, script)
  {
    assert script[..|script|] == script;
  }

  lemma RunOne(t: string, e: Edit)
    ensures RunText(t, [e]) == StepText(t, e)
  {
    hide StepText;
    assert [e][1..] == [];
  }

  // ---------- what a run makes of the payload ----------

  /** The value a field has after a run, from the one it had before and the rank of the version. */
  function Expected(p: Inputs, rank: int, f: Field, was: Option<Json>): Option<Json> {
    match f
    case ThirdPartyName => Some(TextOf(p.displayName))
    case GameVersion => Some(TextOf(p.version))
    case DeviceId | SelfSignedId => Some(TextOf(p.uuid))
    case ServerAddress => Some(TextOf(p.serverAddress))
    case DeviceModel => Some(TextOf("PrismarineJS"))
    case LanguageCode => Some(TextOf("en_GB"))
    case PlatformOfflineId | PlatformOnlineId => Some(TextOf(""))
    case PlayFabId => Some(TextOf(p.latePlayFabId))
    case ClientRandomId => Some(IntOf(p.lateNow))
    case CurrentInputMode | DefaultInputMode | GraphicsMode => Some(IntOf(1))
    case DeviceOS => Some(IntOf(7))
    case GuiScale => Some(IntOf(-1))
    case UIProfile => Some(IntOf(0))
    case IsEditorMode => Some(Bool(false))
    case TrustedSkin => if rank >= Packed(1, 19, 20) then Some(Bool(false)) else None
    case OverrideSkin => if rank >= Packed(1, 19, 62) then Some(Bool(false)) else None
    case CompatibleWithClientSideChunkGen => if rank >= Packed(1, 19, 80) then Some(Bool(false)) else None
    case MaxViewDistance | MemoryTier | PlatformType => if rank >= Packed(1, 21, 42) then Some(IntOf(0)) else None
    case ThirdPartyNameOnly =>
      if rank >= Packed(1, 21, 90) then None else if was.Some? then was else Some(Bool(false))
    case SkinAnimationData => was
  }

  // Where in its script a field is named; past the end when it is not.

  function StringPlace(f: Field): nat {
    match f
    case ThirdPartyName => 0
    case GameVersion => 1
    case DeviceId => 2
    case SelfSignedId => 3
    case ServerAddress => 4
    case DeviceModel => 5
    case LanguageCode => 6
    case PlatformOfflineId => 7
    case PlatformOnlineId => 8
    case PlayFabId => 9
    case _ => 10
  }

  function IntPlace(f: Field): nat {
    match f
    case ClientRandomId => 0
    case CurrentInputMode => 1
    case DefaultInputMode => 2
    case DeviceOS => 3
    case GraphicsMode => 4
    case GuiScale => 5
    case UIProfile => 6
    case IsEditorMode => 7
    case _ => 8
  }

  function GatedPlace(f: Field): nat {
    match f
    case TrustedSkin => 0
    case OverrideSkin => 1
    case CompatibleWithClientSideChunkGen => 2
    case MaxViewDistance => 3
    case MemoryTier => 4
    case PlatformType => 5
    case _ => 6
  }

  function NormalizePlace(f: Field): nat {
    match f
    case TrustedSkin => 0
    case OverrideSkin => 1
    case CompatibleWithClientSideChunkGen => 2
    case MaxViewDistance => 3
    case MemoryTier => 4
    case PlatformType => 5
    case ThirdPartyNameOnly => 6
    case ClientRandomId => 7
    case PlayFabId => 8
    case _ => 9
  }

  lemma KeepEffect(f: Field, was: Option<Json>)
    ensures Effect(Keep, f, was) == was
  {
  }

  lemma StringsEffect(p: Inputs, f: Field, was: Option<Json>)
    ensures RunEffect(Strings(p), f, was) == Effect(StringEdit(p, StringPlace(f)), f, was)
  {
    hide AtLeast, Effect, RunEffect;
    forall i | 0 <= i < 10 && i != StringPlace(f)
      ensures !Touches(Strings(p)[i], f)
    {
    }
    if StringPlace(f) < 10 {
      OnlyEdit(Strings(p), StringPlace(f), f, was);
    } else {
      Untouched(Strings(p), f, was);
      KeepEffect(f, was);
    }
  }

  lemma IntsEffect(p: Inputs, f: Field, was: Option<Json>)
    ensures RunEffect(Ints(p), f, was) == Effect(IntEdit(p, IntPlace(f)), f, was)
  {
    hide AtLeast, Effect, RunEffect;
    forall i | 0 <= i < 8 && i != IntPlace(f)
      ensures !Touches(Ints(p)[i], f)
    {
    }
    if IntPlace(f) < 8 {
      OnlyEdit(Ints(p), IntPlace(f), f, was);
    } else {
      Untouched(Ints(p), f, was);
      KeepEffect(f, was);
    }
  }

  lemma GatedEffect(v: seq<int>, f: Field, was: Option<Json>)
    requires |v| >= 3
    ensures RunEffect(Gated(v), f, was) == Effect(GatedEdit(v, GatedPlace(f)), f, was)
  {
    hide AtLeast, Effect, RunEffect;
    forall i | 0 <= i < 6 && i != GatedPlace(f)
      ensures !Touches(Gated(v)[i], f)
    {
    }
    if GatedPlace(f) < 6 {
      OnlyEdit(Gated(v), GatedPlace(f), f, was);
    } else {
      Untouched(Gated(v), f, was);
      KeepEffect(f, was);
    }
  }

  lemma NormalizeEffect(p: Inputs, v: seq<int>, f: Field, was: Option<Json>)
    requires |v| >= 3
    ensures RunEffect(Normalize(p, v), f, was) == Effect(NormalizeEdit(p, v, NormalizePlace(f)), f, was)
  {
    hide AtLeast, Effect, RunEffect;
    forall i | 0 <= i < 9 && i != NormalizePlace(f)
      ensures !Touches(Normalize(p, v)[i], f)
    {
    }
    if NormalizePlace(f) < 9 {
      OnlyEdit(Normalize(p, v), NormalizePlace(f), f, was);
    } else {
      Untouched(Normalize(p, v), f, was);
      KeepEffect(f, was);
    }
  }

  /** The four edits that can name a field, one after the other. */
  function FourEdits(p: Inputs, v: seq<int>, f: Field, was: Option<Json>): Option<Json>
    requires |v| >= 3
  {
    var a := Effect(StringEdit(p, StringPlace(f)), f, was);
    var b := Effect(IntEdit(p, IntPlace(f)), f, a);
    var c := Effect(GatedEdit(v, GatedPlace(f)), f, b);
    Effect(NormalizeEdit(p, v, NormalizePlace(f)), f, c)
  }

  /** They make the expected value. */
  lemma EffectsMeet(p: Inputs, v: seq<int>, f: Field, was: Option<Json>)
    requires IntParts(v)
    ensures FourEdits(p, v, f, was) == Expected(p, Rank(v), f, was)
  {
    hide FourEdits, Expected, Rank, IntParts;
    if StringPlace(f) < 10 {
      StringMeets(p, v, f, was);
    } else if IntPlace(f) < 8 {
      IntMeets(p, v, f, was);
    } else {
      GatedMeets(p, v, f, was);
    }
  }

  lemma StringMeets(p: Inputs, v: seq<int>, f: Field, was: Option<Json>)
    requires IntParts(v) && StringPlace(f) < 10
    ensures FourEdits(p, v, f, was) == Expected(p, Rank(v), f, was)
  {
    hide Expected, Effect, StringEdit, IntEdit, GatedEdit, NormalizeEdit, StringPlace, IntPlace,
      GatedPlace, NormalizePlace;
    StringStage(p, Rank(v), f, was);
    OnlyString(p, v, f);
    KeepEffect(f, Effect(StringEdit(p, StringPlace(f)), f, was));
    if f == PlayFabId {
      LateId(p, Rank(v), was);
    }
  }

  lemma StringStage(p: Inputs, rank: int, f: Field, was: Option<Json>)
    requires StringPlace(f) < 10
    ensures Effect(StringEdit(p, StringPlace(f)), f, was) ==
            if f == PlayFabId then Some(TextOf(p.playFabId)) else Expected(p, rank, f, was)
  {
    hide TextOf, IntOf, Packed;
  }

  lemma OnlyString(p: Inputs, v: seq<int>, f: Field)
    requires |v| >= 3 && StringPlace(f) < 10
    ensures IntEdit(p, IntPlace(f)) == Keep && GatedEdit(v, GatedPlace(f)) == Keep
    ensures NormalizeEdit(p, v, NormalizePlace(f)) ==
            if f == PlayFabId then ReplaceString(PlayFabId, p.latePlayFabId) else Keep
  {
    hide AtLeast;
  }

  lemma LateId(p: Inputs, rank: int, was: Option<Json>)
    ensures Effect(ReplaceString(PlayFabId, p.latePlayFabId), PlayFabId, Some(TextOf(p.playFabId))) ==
            Expected(p, rank, PlayFabId, was)
  {
    hide TextOf, IntOf, Packed;
  }

  lemma IntMeets(p: Inputs, v: seq<int>, f: Field, was: Option<Json>)
    requires IntParts(v) && IntPlace(f) < 8
    ensures FourEdits(p, v, f, was) == Expected(p, Rank(v), f, was)
  {
    GatesRank(v);
    hide IntOf, TextOf, AtLeast, Rank, Packed, IntParts;
  }

  lemma GatedMeets(p: Inputs, v: seq<int>, f: Field, was: Option<Json>)
    requires IntParts(v) && StringPlace(f) == 10 && IntPlace(f) == 8
    ensures FourEdits(p, v, f, was) == Expected(p, Rank(v), f, was)
  {
    GatesRank(v);
    hide IntOf, TextOf, AtLeast, Rank, Packed, IntParts;
  }

  lemma GatesRank(v: seq<int>)
    requires IntParts(v)
    ensures AtLeast(v, 1, 19, 20) <==> Rank(v) >= Packed(1, 19, 20)
    ensures AtLeast(v, 1, 19, 62) <==> Rank(v) >= Packed(1, 19, 62)
    ensures AtLeast(v, 1, 19, 80) <==> Rank(v) >= Packed(1, 19, 80)
    ensures AtLeast(v, 1, 21, 42) <==> Rank(v) >= Packed(1, 21, 42)
    ensures AtLeast(v, 1, 21, 90) <==> Rank(v) >= Packed(1, 21, 90)
  {
    hide AtLeast, Rank, Packed;
    AtLeastExactly(v, 1, 19, 20);
    AtLeastExactly(v, 1, 19, 62);
    AtLeastExactly(v, 1, 19, 80);
    AtLeastExactly(v, 1, 21, 42);
    AtLeastExactly(v, 1, 21, 90);
  }

  lemma ScriptEffect(p: Inputs, v: seq<int>, f: Field, was: Option<Json>)
    requires IntParts(v)
    ensures RunEffect(Script(p, v), f, was) == Expected(p, Rank(v), f, was)
  {
    assert |v| >= 3;
    hide *;
    var a := RunEffect(Strings(p), f, was);
    var b := RunEffect(Ints(p), f, a);
    var c := RunEffect(Gated(v), f, b);
    StringsEffect(p, f, was);
    IntsEffect(p, f, a);
    GatedEffect(v, f, b);
    NormalizeEffect(p, v, f, c);
    ScriptParts(p, v);
    RunEffectConcat(Strings(p), Ints(p), f, was);
    RunEffectConcat(Strings(p) + Ints(p), Gated(v) + Normalize(p, v), f, was);
    RunEffectConcat(Gated(v), Normalize(p, v), f, b);
    EffectsMeet(p, v, f, was);
  }

  lemma ScriptParts(p: Inputs, v: seq<int>)
    requires |v| >= 3
    ensures Script(p, v) == Strings(p) + Ints(p) + (Gated(v) + Normalize(p, v))
  {
  }

  lemma ScriptValid(p: Inputs, v: seq<int>)
    requires GoodInputs(p) && |v| >= 3
    ensures forall e | e in Script(p, v) :: ValidEdit(e)
  {
    hide StringEdit, IntEdit, GatedEdit, NormalizeEdit, ValidEdit, GoodInputs;
    StringsValid(p);
    IntsValid(p);
    GatedValid(v);
    NormalizeValid(p, v);
  }

  lemma IntsValid(p: Inputs)
    ensures forall i | 0 <= i < 8 :: ValidEdit(IntEdit(p, i))
  {
  }

  lemma GatedValid(v: seq<int>)
    requires |v| >= 3
    ensures forall i | 0 <= i < 6 :: ValidEdit(GatedEdit(v, i))
  {
    hide AtLeast;
  }

  lemma StringsValid(p: Inputs)
    requires GoodInputs(p)
    ensures forall i | 0 <= i < 10 :: ValidEdit(StringEdit(p, i))
  {
    hide Harmless;
    FixedStringsHarmless(p.playFabId);
  }

  lemma NormalizeValid(p: Inputs, v: seq<int>)
    requires GoodInputs(p) && |v| >= 3
    ensures forall i | 0 <= i < 9 :: ValidEdit(NormalizeEdit(p, v, i))
  {
    hide Harmless, AtLeast;
    FixedStringsHarmless(p.latePlayFabId);
  }

  /** On the compact text of any object the edits fit, spaces behind it or not, a whole run yields the
      compact text of an object whose keys are unique, whose every field has exactly the expected
      value, and whose other members are the old ones in their old order; the spaces stay. */
  lemma RuntimeRefines(ms: seq<Member>, ws: string, p: Inputs, v: seq<int>) returns (now: seq<Member>)
    requires Fit(ms) && Spaces(ws) && GoodInputs(p) && IntParts(v)
    ensures RunText(Print(Obj(ms)) + ws, Script(p, v)) == Print(Obj(now)) + ws
    ensures WellFormedMembers(now) && UniqueKeys(now)
    ensures forall f :: Lookup(now, Name(f)) == Expected(p, Rank(v), f, Lookup(ms, Name(f)))
    ensures Others(now, FIELD_NAMES) == Others(ms, FIELD_NAMES)
  {
    hide Script, ValidEdit, Expected, Lookup, Others, Name, Print, RunText, RunTree, RunEffect, GoodInputs, Spaces;
    ScriptValid(p, v);
    ScriptRefines(ms, Script(p, v), ws);
    now := RunTree(ms, Script(p, v));
    FitUnique(ms);
    FitUnique(now);
    forall f: Field
      ensures Lookup(now, Name(f)) == Expected(p, Rank(v), f, Lookup(ms, Name(f)))
      ensures Others(now, FIELD_NAMES) == Others(ms, FIELD_NAMES)
    {
      ScriptLookup(ms, Script(p, v), f);
      ScriptEffect(p, v, f, Lookup(ms, Name(f)));
    }
    ScriptLookup(ms, Script(p, v), PlayFabId);
  }

  /** A version that throws leaves an object too: the unconditional edits are a script of their own. */
  lemma BaseRefines(ms: seq<Member>, ws: string, p: Inputs) returns (now: seq<Member>)
    requires Fit(ms) && Spaces(ws) && GoodInputs(p)
    ensures RunText(Print(Obj(ms)) + ws, Base(p)) == Print(Obj(now)) + ws
    ensures WellFormedMembers(now) && UniqueKeys(now)
    ensures Others(now, FIELD_NAMES) == Others(ms, FIELD_NAMES)
  {
    hide Base, Gated, Normalize, ValidEdit, Lookup, Others, Name, Print, RunText, RunTree, RunEffect, GoodInputs,
      Spaces;
    var v := [0, 0, 0];
    ScriptValid(p, v);
    assert forall e | e in Base(p) :: e in Script(p, v);
    ScriptRefines(ms, Base(p), ws);
    now := RunTree(ms, Base(p));
    FitUnique(ms);
    FitUnique(now);
    ScriptLookup(ms, Base(p), PlayFabId);
  }

  /** applyRuntimeClientDataFields on the compact text of an object the edits fit, spaces behind it or
      not: whether or not the version can be read, the text is that of an object with unique keys and
      the other members kept; when it can, every field has exactly the expected value. */
  method ApplyToObject(payload: JsonText, p: Inputs, ghost ms: seq<Member>, ghost ws: string)
    returns (threw: bool, ghost now: seq<Member>)
    requires Fit(ms) && Spaces(ws) && GoodInputs(p) && payload.json == Print(Obj(ms)) + ws
    modifies payload
    ensures threw <==> VersionParts(p.version).None?
    ensures payload.json == Print(Obj(now)) + ws && WellFormedMembers(now) && UniqueKeys(now)
    ensures Others(now, FIELD_NAMES) == Others(ms, FIELD_NAMES)
    ensures !threw ==>
              forall f :: Lookup(now, Name(f)) ==
                          Expected(p, Rank(VersionParts(p.version).value), f, Lookup(ms, Name(f)))
  {
    hide Script, Base, Expected, Lookup, Others, Name, Print, RunText, GoodInputs, Fit, Spaces;
    threw := ApplyRuntimeClientDataFields(payload, p);
    if threw {
      now := BaseRefines(ms, ws, p);
    } else {
      now := RuntimeRefines(ms, ws, p, VersionParts(p.version).value);
    }
  }

  // ---------- the gates, by version texts ----------

  /** A member that is there, and false or zero, exactly from a version on. */
  ghost predicate Since(now: seq<Member>, f: Field, v: Json, rank: int, gate: int) {
    Lookup(now, Name(f)) == if rank >= gate then Some(v) else None
  }

  /** The payload after a run with version x.y.z: each gated member is there exactly from its version
      on, and ThirdPartyNameOnly exactly before 1.21.90. */
  lemma PayloadAfter(ms: seq<Member>, ws: string, p: Inputs, x: nat, y: nat, z: nat) returns (now: seq<Member>)
    requires Fit(ms) && Spaces(ws) && GoodInputs(p) && p.version == Dotted(x, y, z)
    requires x <= INT_MAX && y <= INT_MAX && z <= INT_MAX
    ensures VersionParts(p.version) == Some([x, y, z])
    ensures RunText(Print(Obj(ms)) + ws, Script(p, [x, y, z])) == Print(Obj(now)) + ws
    ensures Others(now, FIELD_NAMES) == Others(ms, FIELD_NAMES)
    ensures var rank := Packed(x, y, z);
            && Since(now, TrustedSkin, Bool(false), rank, Packed(1, 19, 20))
            && Since(now, OverrideSkin, Bool(false), rank, Packed(1, 19, 62))
            && Since(now, CompatibleWithClientSideChunkGen, Bool(false), rank, Packed(1, 19, 80))
            && Since(now, MaxViewDistance, Num("0"), rank, Packed(1, 21, 42))
            && Since(now, MemoryTier, Num("0"), rank, Packed(1, 21, 42))
            && Since(now, PlatformType, Num("0"), rank, Packed(1, 21, 42))
            && (Lookup(now, Name(ThirdPartyNameOnly)).None? <==> rank >= Packed(1, 21, 90))
  {
    hide Script, Print, RunText, Others, Lookup, Name, Packed, Dotted, Rank, Expected, Fit, Spaces, GoodInputs,
      IntOf, Since;
    DottedVersion(x, y, z);
    now := RuntimeRefines(ms, ws, p, [x, y, z]);
    RankOf(x, y, z);
    var rank := Packed(x, y, z);
    SinceGate(ms, p, rank, now, TrustedSkin);
    SinceGate(ms, p, rank, now, OverrideSkin);
    SinceGate(ms, p, rank, now, CompatibleWithClientSideChunkGen);
    SinceGate(ms, p, rank, now, MaxViewDistance);
    SinceGate(ms, p, rank, now, MemoryTier);
    SinceGate(ms, p, rank, now, PlatformType);
    SinceGate(ms, p, rank, now, ThirdPartyNameOnly);
  }

  lemma SinceGate(ms: seq<Member>, p: Inputs, rank: int, now: seq<Member>, f: Field)
    requires Lookup(now, Name(f)) == Expected(p, rank, f, Lookup(ms, Name(f)))
    ensures match f
            case TrustedSkin => Since(now, f, Bool(false), rank, Packed(1, 19, 20))
            case OverrideSkin => Since(now, f, Bool(false), rank, Packed(1, 19, 62))
            case CompatibleWithClientSideChunkGen => Since(now, f, Bool(false), rank, Packed(1, 19, 80))
            case MaxViewDistance | MemoryTier | PlatformType => Since(now, f, Num("0"), rank, Packed(1, 21, 42))
            case ThirdPartyNameOnly => Lookup(now, Name(f)).None? <==> rank >= Packed(1, 21, 90)
            case _ => true
  {
    hide Lookup, Name, Packed, IntOf, TextOf;
    ZeroText();
  }

  lemma RankOf(x: int, y: int, z: int)
    ensures Rank([x, y, z]) == Packed(x, y, z)
  {
    hide Packed;
  }

  lemma ZeroText()
    ensures IntOf(0) == Num("0")
  {
    assert Decimal(0) == "0";
  }
}
