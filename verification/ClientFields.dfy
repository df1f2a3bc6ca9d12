/** The client-data keys tools/login.cpp names, and the kind of value each one carries. */
module ClientFields {
  import opened Wrappers
  import opened Text
  import opened JsonTree
  import opened JsonEdit
  import opened JsonLocate

  datatype Field =
    | ThirdPartyName | GameVersion | DeviceId | SelfSignedId | ServerAddress | DeviceModel | LanguageCode
    | PlatformOfflineId | PlatformOnlineId | PlayFabId
    | ClientRandomId | CurrentInputMode | DefaultInputMode | DeviceOS | GraphicsMode | GuiScale | UIProfile
    | IsEditorMode | TrustedSkin | OverrideSkin | CompatibleWithClientSideChunkGen
    | MaxViewDistance | MemoryTier | PlatformType
    | ThirdPartyNameOnly | SkinAnimationData

  function Name(f: Field): string {
    match f
    case ThirdPartyName => "ThirdPartyName"
    case GameVersion => "GameVersion"
    case DeviceId => "DeviceId"
    case SelfSignedId => "SelfSignedId"
    case ServerAddress => "ServerAddress"
    case DeviceModel => "DeviceModel"
    case LanguageCode => "LanguageCode"
    case PlatformOfflineId => "PlatformOfflineId"
    case PlatformOnlineId => "PlatformOnlineId"
    case PlayFabId => "PlayFabId"
    case ClientRandomId => "ClientRandomId"
    case CurrentInputMode => "CurrentInputMode"
    case DefaultInputMode => "DefaultInputMode"
    case DeviceOS => "DeviceOS"
    case GraphicsMode => "GraphicsMode"
    case GuiScale => "GuiScale"
    case UIProfile => "UIProfile"
    case IsEditorMode => "IsEditorMode"
    case TrustedSkin => "TrustedSkin"
    case OverrideSkin => "OverrideSkin"
    case CompatibleWithClientSideChunkGen => "CompatibleWithClientSideChunkGen"
    case MaxViewDistance => "MaxViewDistance"
    case MemoryTier => "MemoryTier"
    case PlatformType => "PlatformType"
    case ThirdPartyNameOnly => "ThirdPartyNameOnly"
    case SkinAnimationData => "SkinAnimationData"
  }

  datatype Kind = StringKind | IntKind | AnyKind

  function KindOf(f: Field): Kind {
    match f
    case ClientRandomId | CurrentInputMode | DefaultInputMode | DeviceOS | GraphicsMode | GuiScale | UIProfile
      | MaxViewDistance | MemoryTier | PlatformType => IntKind
    case IsEditorMode | TrustedSkin | OverrideSkin | CompatibleWithClientSideChunkGen
      | ThirdPartyNameOnly | SkinAnimationData => AnyKind
    case _ => StringKind
  }

  /** Fields that some edit takes out. */
  predicate Droppable(f: Field) {
    match f
    case IsEditorMode | TrustedSkin | OverrideSkin | CompatibleWithClientSideChunkGen
      | MaxViewDistance | MemoryTier | PlatformType | ThirdPartyNameOnly => true
    case _ => false
  }

  predicate Fits(k: Kind, v: Json) {
    match k
    case StringKind => v.Str?
    case IntKind => v.Num? && IntegerText(v.digits)
    case AnyKind => true
  }

  // ---------- the names are plain and pairwise different ----------

  predicate Letter(c: char) {
    'A' <= c <= 'Z' || 'a' <= c <= 'z'
  }

  lemma StringNames(f: Field)
    requires KindOf(f) == StringKind
    ensures forall i | 0 <= i < |Name(f)| :: Letter(Name(f)[i])
  {
    hide Name;
    if f == ThirdPartyName || f == GameVersion || f == DeviceId || f == SelfSignedId || f == ServerAddress {
      FirstNames(f);
    } else {
      LaterNames(f);
    }
  }

  lemma FirstNames(f: Field)
    requires f == ThirdPartyName || f == GameVersion || f == DeviceId || f == SelfSignedId || f == ServerAddress
    ensures forall i | 0 <= i < |Name(f)| :: Letter(Name(f)[i])
  {
  }

  lemma LaterNames(f: Field)
    requires f == DeviceModel || f == LanguageCode || f == PlatformOfflineId || f == PlatformOnlineId || f == PlayFabId
    ensures forall i | 0 <= i < |Name(f)| :: Letter(Name(f)[i])
  {
  }

  lemma KeptNames(f: Field)
    requires KindOf(f) != StringKind && !Droppable(f)
    ensures forall i | 0 <= i < |Name(f)| :: Letter(Name(f)[i])
  {
  }

  lemma DroppableNames(f: Field)
    requires Droppable(f) && f != CompatibleWithClientSideChunkGen
    ensures forall i | 0 <= i < |Name(f)| :: Letter(Name(f)[i])
  {
  }

  lemma LongName(f: Field)
    requires f == CompatibleWithClientSideChunkGen
    ensures forall i | 0 <= i < |Name(f)| :: Letter(Name(f)[i])
  {
  }

  lemma NameStart(f: Field)
    ensures |Name(f)| >= 8 && 'A' <= Name(f)[0] <= 'Z'
  {
  }

  lemma Letters(f: Field)
    ensures forall i | 0 <= i < |Name(f)| :: Letter(Name(f)[i])
  {
    hide Name;
    if f == CompatibleWithClientSideChunkGen {
      LongName(f);
    } else if KindOf(f) == StringKind {
      StringNames(f);
    } else if Droppable(f) {
      DroppableNames(f);
    } else {
      KeptNames(f);
    }
  }

  lemma NamePlain(f: Field)
    ensures PlainKey(Name(f)) && forall i | 0 <= i < |Name(f)| :: Letter(Name(f)[i])
    ensures |Name(f)| >= 8 && 'A' <= Name(f)[0] <= 'Z'
  {
    Letters(f);
    NameStart(f);
    hide Name;
  }

  /** Length, first letter and second letter from the end tell the names apart. */
  function FieldOf(n: nat, first: char, late: char): Field {
    if n == 8 then (if first == 'D' then (if late == 'I' then DeviceId else DeviceOS) else GuiScale)
    else if n == 9 then (if first == 'P' then PlayFabId else UIProfile)
    else if n == 10 then MemoryTier
    else if n == 11 then (if first == 'G' then GameVersion else if first == 'D' then DeviceModel else TrustedSkin)
    else if n == 12 then
      (if first == 'S' then SelfSignedId else if first == 'L' then LanguageCode else if first == 'G' then GraphicsMode
       else if first == 'I' then IsEditorMode else if first == 'O' then OverrideSkin else PlatformType)
    else if n == 13 then ServerAddress
    else if n == 14 then (if first == 'T' then ThirdPartyName else ClientRandomId)
    else if n == 15 then MaxViewDistance
    else if n == 16 then
      (if first == 'P' then PlatformOnlineId else if first == 'C' then CurrentInputMode else DefaultInputMode)
    else if n == 17 then (if first == 'P' then PlatformOfflineId else SkinAnimationData)
    else if n == 18 then ThirdPartyNameOnly
    else CompatibleWithClientSideChunkGen
  }

  lemma NameDetermines(f: Field)
    ensures |Name(f)| >= 8 && FieldOf(|Name(f)|, Name(f)[0], Name(f)[|Name(f)| - 2]) == f
  {
  }

  lemma NamesDiffer(f: Field, g: Field)
    ensures Name(f) == Name(g) <==> f == g
  {
    hide Name, FieldOf;
    NameDetermines(f);
    NameDetermines(g);
  }

  // ---------- values that no quoted name can be found in ----------

  /** The text neither is a field name nor ends in a quote and a field name. */
  ghost predicate Harmless(s: string) {
    forall f :: !EndsQuoted(s, Name(f))
  }

  ghost predicate CleanValue(v: Json) {
    forall f :: Clean(v, Name(f))
  }

  lemma {:induction false} EscapeConcat(a: string, b: string)
    ensures EscapeJson(a + b) == EscapeJson(a) + EscapeJson(b)
  {
    if a == "" {
      assert a + b == b;
    } else {
      EscapeConcat(a[1..], b);
      assert (a + b)[1..] == a[1..] + b && (a + b)[0] == a[0];
      hide EscapeChar;
      Concat3(EscapeChar(a[0]), EscapeJson(a[1..]), EscapeJson(b));
    }
  }

  lemma {:induction false} EscapePlain(k: string)
    requires forall i | 0 <= i < |k| :: Letter(k[i])
    ensures EscapeJson(k) == k
  {
    if k != "" {
      EscapePlain(k[1..]);
    }
  }

  lemma EscapeLast(s: string)
    requires s != ""
    ensures EscapeJson(s) == EscapeJson(s[..|s| - 1]) + EscapeChar(s[|s| - 1])
  {
    hide EscapeJson, EscapeChar;
    assert s == s[..|s| - 1] + [s[|s| - 1]];
    EscapeJsonAppend(s[..|s| - 1], s[|s| - 1]);
  }

  /** A run of letters at the end of an escaped text, not begun by an escape, is there unescaped. */
  lemma {:induction false} LettersUnescape(s: string, x: string, w: string)
    requires EscapeJson(s) == x + w && (forall i | 0 <= i < |w| :: Letter(w[i]))
    requires x != "" ==> x[|x| - 1] == '"'
    ensures |w| <= |s| && s == s[..|s| - |w|] + w && EscapeJson(s[..|s| - |w|]) == x
    decreases |w|
  {
    EscapeEmpty(s);
    hide EscapeJson, EscapeChar;
    if w == "" {
      assert s[..|s|] == s && x + w == x;
    } else {
      assert |x + w| > 0;
      var v, y := s[..|s| - 1], w[..|w| - 1];
      EscapeLast(s);
      LastLetter(EscapeJson(v), s[|s| - 1], x, w);
      LettersUnescape(v, x, y);
      assert s[..|s| - |w|] == v[..|v| - |y|];
      assert w == y + [w[|w| - 1]];
      Concat3(v[..|v| - |y|], y, [w[|w| - 1]]);
      assert s == v + [s[|s| - 1]];
    }
  }

  lemma LastLetter(e: string, c: char, x: string, w: string)
    requires w != "" && e + EscapeChar(c) == x + w && (forall i | 0 <= i < |w| :: Letter(w[i]))
    requires x != "" ==> x[|x| - 1] == '"'
    ensures c == w[|w| - 1] && e == x + w[..|w| - 1]
  {
    var t, d := x + w, EscapeChar(c);
    assert t[|t| - 1] == w[|w| - 1] == d[|d| - 1];
    assert |t| >= 2 ==> t[|t| - 2] == if |w| >= 2 then w[|w| - 2] else x[|x| - 1];
    assert d[0] == (if |d| == 2 then '\\' else c) && t[|e|] == d[0];
    assert e == (e + d)[..|e|];
    assert x + w[..|w| - 1] == t[..|t| - 1];
  }

  /** Escaping neither hides nor creates a quoted field name at the end of a text. */
  lemma EscapedEnd(s: string, k: string)
    requires k != "" && forall i | 0 <= i < |k| :: Letter(k[i])
    ensures EndsQuoted(EscapeJson(s), k) <==> EndsQuoted(s, k)
  {
    EscapePlain(k);
    hide EscapeJson, EscapeChar;
    if EndsQuoted(s, k) && s != k {
      QuoteKept(s, k);
    }
    var e := EscapeJson(s);
    if e == k {
      assert e == "" + k;
      LettersUnescape(s, "", k);
      EscapeEmpty(s[..|s| - |k|]);
    } else if EndsQuoted(e, k) {
      var x := e[..|e| - |k|];
      BeforeEnd(e, k);
      LettersUnescape(s, x, k);
      QuoteWasThere(s, s[..|s| - |k|], k);
    }
  }

  lemma BeforeEnd(e: string, k: string)
    requires |e| > |k| && e[|e| - |k| - 1..] == "\"" + k
    ensures e == e[..|e| - |k|] + k && e[|e| - |k| - 1] == '"'
  {
    assert e[|e| - |k| - 1] == e[|e| - |k| - 1..][0];
    assert e[|e| - |k|..] == e[|e| - |k| - 1..][1..];
  }

  lemma QuoteKept(s: string, k: string)
    requires |s| > |k| && s[|s| - |k| - 1..] == "\"" + k && EscapeJson(k) == k
    ensures EndsQuoted(EscapeJson(s), k)
  {
    var a := s[..|s| - |k| - 1];
    EscapeQuote(k);
    hide EscapeJson, EscapeChar;
    assert s == a + ("\"" + k);
    EscapeConcat(a, "\"" + k);
    var x := EscapeJson(a) + "\\";
    assert EscapeJson(s) == x + ("\"" + k);
  }

  lemma EscapeQuote(k: string)
    requires EscapeJson(k) == k
    ensures EscapeJson("\"" + k) == "\\" + ("\"" + k)
  {
    assert ("\"" + k)[1..] == k;
  }

  lemma QuoteWasThere(s: string, a: string, k: string)
    requires s == a + k && EscapeJson(a) != "" && EscapeJson(a)[|EscapeJson(a)| - 1] == '"'
    ensures EndsQuoted(s, k)
  {
    EscapeEmpty(a);
    hide EscapeJson;
    EscapeLast(a);
    var c := a[|a| - 1];
    assert EscapeJson(a)[|EscapeJson(a)| - 1] == EscapeChar(c)[|EscapeChar(c)| - 1];
    assert c == '"';
    assert s[|s| - |k| - 1..] == "\"" + k;
  }

  lemma EscapeEmpty(s: string)
    ensures EscapeJson(s) == "" <==> s == ""
  {
  }

  lemma HarmlessClean(s: string)
    requires Harmless(s)
    ensures CleanValue(Str(EscapeJson(s))) && WellFormed(Str(EscapeJson(s)))
  {
    forall f: Field
      ensures Clean(Str(EscapeJson(s)), Name(f))
    {
      NamePlain(f);
      EscapedEnd(s, Name(f));
    }
    EscapeJsonIsEscaped(s);
  }

  /** The fixed strings the code sets, and any hexadecimal id, are harmless. */
  lemma FixedStringsHarmless(hex: string)
    requires forall i | 0 <= i < |hex| :: IsDigit(hex[i]) || 'a' <= hex[i] <= 'f'
    ensures Harmless("PrismarineJS") && Harmless("en_GB") && Harmless("") && Harmless(hex)
  {
    forall f: Field
      ensures !EndsQuoted("PrismarineJS", Name(f)) && !EndsQuoted("en_GB", Name(f))
      ensures !EndsQuoted("", Name(f)) && !EndsQuoted(hex, Name(f))
    {
      FixedNames(f);
      NameStart(f);
      hide Name;
      NotQuoted("PrismarineJS", Name(f));
      NotQuoted("en_GB", Name(f));
      NotQuoted("", Name(f));
      NotQuoted(hex, Name(f));
    }
  }

  lemma FixedNames(f: Field)
    ensures |Name(f)| >= 8 && (Name(f)[0] != 'P' || Name(f)[1] != 'r')
  {
  }

  lemma NotQuoted(s: string, k: string)
    requires |k| >= 2 && (|s| < |k| || s[0] != k[0] || s[1] != k[1])
    requires forall i | 0 <= i < |s| :: s[i] != '"'
    ensures !EndsQuoted(s, k)
  {
    if |s| > |k| {
      assert s[|s| - |k| - 1..][0] == s[|s| - |k| - 1];
    }
  }
}
