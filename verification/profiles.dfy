/** Game profile records (src/storage/profiles.rs): the profile, its OCR
    zones, and the screen definitions and anchors that screen recognition
    works on, together with the values that deserialisation fills in for
    absent fields (`#[serde(default)]`). */
module Profiles {
  import opened Wrappers
  import opened Numeric
  import opened Config

  /** Normalised rectangle (x, y, width, height) as fractions of the screen. */
  datatype Bounds = Bounds(x: real, y: real, w: real, h: real)

  datatype ContentType = TextContent | NumberContent | PercentageContent | TimeContent

  datatype ScreenMatchMode = FullScreenshot | Anchors

  datatype AnchorType = Visual | TextAnchor

  /** The `Default` implementations of the three enums. */
  const DefaultContentType: ContentType := TextContent
  const DefaultMatchMode: ScreenMatchMode := Anchors
  const DefaultAnchorType: AnchorType := Visual

  /** Values used when a field is absent from a stored profile. */
  const DEFAULT_MATCH_THRESHOLD: real := 0.8
  const DEFAULT_TEXT_SIMILARITY: real := 0.8
  const DEFAULT_SCREEN_CHECK_INTERVAL_MS: nat := 500

  datatype ScreenAnchor = ScreenAnchor(
    id: string,
    anchorType: AnchorType,
    bounds: Bounds,
    templateData: Option<seq<byte>>,
    expectedText: Option<string>,
    textSimilarity: real,
    required: bool
  )

  datatype ScreenTemplate = ScreenTemplate(imageData: seq<byte>, width: u32, height: u32, capturedAt: string)

  datatype ZoneOverride = ZoneOverride(zoneId: string, enabled: bool)

  datatype ScreenDefinition = ScreenDefinition(
    id: string,
    name: string,
    parentId: Option<string>,
    matchMode: ScreenMatchMode,
    anchors: seq<ScreenAnchor>,
    fullTemplate: Option<ScreenTemplate>,
    matchThreshold: real,
    enabled: bool,
    priority: u32,
    ocrZoneOverrides: seq<ZoneOverride>,
    rulesToTrigger: seq<string>,
    showNotification: bool
  )

  datatype OcrRegion = OcrRegion(
    id: string,
    name: string,
    bounds: Bounds,
    contentType: ContentType,
    enabled: bool,
    preprocessing: Option<OcrPreprocessing>
  )

  datatype TemplateDefinition = TemplateDefinition(id: string, imagePath: string, threshold: real)

  datatype RuleDefinition = RuleDefinition(id: string, name: string, enabled: bool, script: string)

  datatype LabeledRegion = LabeledRegion(labelName: string, matchedText: string, bounds: (u32, u32, u32, u32), confidence: real)

  datatype GameProfile = GameProfile(
    id: string,
    name: string,
    executables: seq<string>,
    version: string,
    ocrRegions: seq<OcrRegion>,
    templates: seq<TemplateDefinition>,
    rules: seq<RuleDefinition>,
    labeledRegions: seq<LabeledRegion>,
    screens: seq<ScreenDefinition>,
    screenRecognitionEnabled: bool,
    screenCheckIntervalMs: u32
  )

  // ---------------------------------------------------------------------
  // Stored form: every field may be absent. Decoding fills the serde
  // defaults and fails on an absent field that has none.
  // ---------------------------------------------------------------------

  datatype StoredAnchor = StoredAnchor(
    id: Option<string>,
    anchorType: Option<AnchorType>,
    bounds: Option<Bounds>,
    templateData: Option<Option<seq<byte>>>,
    expectedText: Option<Option<string>>,
    textSimilarity: Option<real>,
    required: Option<bool>
  )

  function Missing<T>(field: string): Result<T>
  {
    Err("missing field `" + field + "`")
  }

  function DecodeAnchor(s: StoredAnchor): (r: Result<ScreenAnchor>)
    ensures r.Ok? <==> s.id.Some? && s.anchorType.Some? && s.bounds.Some?
    ensures r.Ok? ==> (r.value.id == s.id.value && r.value.anchorType == s.anchorType.value
                   && r.value.bounds == s.bounds.value)
    ensures r.Ok? ==> r.value.textSimilarity == s.textSimilarity.GetOr(DEFAULT_TEXT_SIMILARITY)
    ensures r.Ok? ==> r.value.required == s.required.GetOr(true)
    ensures r.Ok? ==> (r.value.templateData == s.templateData.GetOr(None)
                   && r.value.expectedText == s.expectedText.GetOr(None))
  {
    if s.id.None? then Missing("id")
    else if s.anchorType.None? then Missing("anchor_type")
    else if s.bounds.None? then Missing("bounds")
    else Ok(ScreenAnchor(
      s.id.value, s.anchorType.value, s.bounds.value,
      s.templateData.GetOr(None), s.expectedText.GetOr(None),
      s.textSimilarity.GetOr(DEFAULT_TEXT_SIMILARITY), s.required.GetOr(true)))
  }

  function EncodeAnchor(a: ScreenAnchor): StoredAnchor
  {
    StoredAnchor(Some(a.id), Some(a.anchorType), Some(a.bounds), Some(a.templateData),
                 Some(a.expectedText), Some(a.textSimilarity), Some(a.required))
  }

  /** Storing every field and reading it back gives the same anchor. */
  lemma AnchorRoundTrip(a: ScreenAnchor)
    ensures DecodeAnchor(EncodeAnchor(a)) == Ok(a)
  {
  }

  datatype StoredScreen = StoredScreen(
    id: Option<string>,
    name: Option<string>,
    parentId: Option<Option<string>>,
    matchMode: Option<ScreenMatchMode>,
    anchors: Option<seq<StoredAnchor>>,
    fullTemplate: Option<Option<ScreenTemplate>>,
    matchThreshold: Option<real>,
    enabled: Option<bool>,
    priority: Option<u32>,
    ocrZoneOverrides: Option<seq<ZoneOverride>>,
    rulesToTrigger: Option<seq<string>>,
    showNotification: Option<bool>
  )

  function DecodeAnchors(ss: seq<StoredAnchor>): (r: Result<seq<ScreenAnchor>>)
    ensures r.Ok? <==> forall i :: 0 <= i < |ss| ==> DecodeAnchor(ss[i]).Ok?
    ensures r.Ok? ==> |r.value| == |ss| && forall i :: 0 <= i < |ss| ==> Ok(r.value[i]) == DecodeAnchor(ss[i])
  {
    if |ss| == 0 then Ok([])
    else
      match DecodeAnchor(ss[0])
      case Err(m) => Err(m)
      case Ok(a) =>
        match DecodeAnchors(ss[1..])
        case Err(m) =>
          assert exists i :: 1 <= i < |ss| && DecodeAnchor(ss[i]).Err? by {
            var i :| 0 <= i < |ss| - 1 && DecodeAnchor(ss[1..][i]).Err?;
            assert ss[1..][i] == ss[i + 1];
          }
          Err(m)
        case Ok(rest) => Ok([a] + rest)
  }

  /** `ScreenDefinition` deserialisation: `id`, `name` and `match_mode` are
      required (the enum's own `Default` is not used by serde here); the
      threshold defaults to 0.8, `enabled` and `show_notification` to true,
      priority to 0 and the collections to empty. */
  function DecodeScreen(s: StoredScreen): (r: Result<ScreenDefinition>)
    ensures s.id.None? || s.name.None? || s.matchMode.None? ==> r.Err?
    ensures r.Ok? ==> (r.value.id == s.id.value && r.value.name == s.name.value
                   && r.value.matchMode == s.matchMode.value)
    ensures r.Ok? ==> r.value.parentId == s.parentId.GetOr(None)
    ensures r.Ok? ==> r.value.matchThreshold == s.matchThreshold.GetOr(DEFAULT_MATCH_THRESHOLD)
    ensures r.Ok? ==> (r.value.enabled == s.enabled.GetOr(true)
                   && r.value.showNotification == s.showNotification.GetOr(true))
    ensures r.Ok? ==> r.value.priority == s.priority.GetOr(0)
    ensures r.Ok? <==> && s.id.Some? && s.name.Some? && s.matchMode.Some?
                       && DecodeAnchors(s.anchors.GetOr([])).Ok?
    ensures r.Ok? ==> DecodeAnchors(s.anchors.GetOr([])) == Ok(r.value.anchors)
    ensures r.Ok? && s.anchors.None? ==> r.value.anchors == []
    ensures r.Ok? ==> (r.value.ocrZoneOverrides == s.ocrZoneOverrides.GetOr([])
                   && r.value.rulesToTrigger == s.rulesToTrigger.GetOr([])
                   && r.value.fullTemplate == s.fullTemplate.GetOr(None))
  {
    if s.id.None? then Missing("id")
    else if s.name.None? then Missing("name")
    else if s.matchMode.None? then Missing("match_mode")
    else
      var anchors :- DecodeAnchors(s.anchors.GetOr([]));
      Ok(ScreenDefinition(
        s.id.value, s.name.value, s.parentId.GetOr(None), s.matchMode.value, anchors,
        s.fullTemplate.GetOr(None), s.matchThreshold.GetOr(DEFAULT_MATCH_THRESHOLD),
        s.enabled.GetOr(true), s.priority.GetOr(0), s.ocrZoneOverrides.GetOr([]),
        s.rulesToTrigger.GetOr([]), s.showNotification.GetOr(true)))
  }

  function EncodeScreen(d: ScreenDefinition): (s: StoredScreen)
    ensures s.anchors.Some? && |s.anchors.value| == |d.anchors|
  {
    StoredScreen(Some(d.id), Some(d.name), Some(d.parentId), Some(d.matchMode),
                 Some(seq(|d.anchors|, i requires 0 <= i < |d.anchors| => EncodeAnchor(d.anchors[i]))),
                 Some(d.fullTemplate), Some(d.matchThreshold), Some(d.enabled), Some(d.priority),
                 Some(d.ocrZoneOverrides), Some(d.rulesToTrigger), Some(d.showNotification))
  }

  lemma ScreenRoundTrip(d: ScreenDefinition)
    ensures DecodeScreen(EncodeScreen(d)) == Ok(d)
  {
    var stored := EncodeScreen(d).anchors.value;
    forall i | 0 <= i < |stored| ensures DecodeAnchor(stored[i]) == Ok(d.anchors[i]) {
      AnchorRoundTrip(d.anchors[i]);
    }
    var r := DecodeAnchors(stored);
    assert r.Ok? && r.value == d.anchors;
  }

  /** The stored form of a screen that only names itself and its match mode
      reads back with every default. */
  lemma ScreenDefaults(id: string, name: string, mode: ScreenMatchMode)
    ensures DecodeScreen(StoredScreen(Some(id), Some(name), None, Some(mode), None, None,
                                      None, None, None, None, None, None))
         == Ok(ScreenDefinition(id, name, None, mode, [], None, 0.8, true, 0, [], [], true))
  {
  }

  datatype StoredRegion = StoredRegion(
    id: Option<string>,
    name: Option<string>,
    bounds: Option<Bounds>,
    contentType: Option<ContentType>,
    enabled: Option<bool>,
    preprocessing: Option<Option<OcrPreprocessing>>
  )

  /** `OcrRegion` deserialisation: `name` defaults to "", `enabled` to true,
      `preprocessing` to none; `content_type` is required. */
  function DecodeRegion(s: StoredRegion): (r: Result<OcrRegion>)
    ensures r.Ok? <==> s.id.Some? && s.bounds.Some? && s.contentType.Some?
    ensures r.Ok? ==> (r.value.name == s.name.GetOr("") && r.value.enabled == s.enabled.GetOr(true)
                   && r.value.preprocessing == s.preprocessing.GetOr(None)
                   && r.value.contentType == s.contentType.value)
  {
    if s.id.None? then Missing("id")
    else if s.bounds.None? then Missing("bounds")
    else if s.contentType.None? then Missing("content_type")
    else Ok(OcrRegion(s.id.value, s.name.GetOr(""), s.bounds.value, s.contentType.value,
                      s.enabled.GetOr(true), s.preprocessing.GetOr(None)))
  }

  function EncodeRegion(z: OcrRegion): StoredRegion
  {
    StoredRegion(Some(z.id), Some(z.name), Some(z.bounds), Some(z.contentType),
                 Some(z.enabled), Some(z.preprocessing))
  }

  lemma RegionRoundTrip(z: OcrRegion)
    ensures DecodeRegion(EncodeRegion(z)) == Ok(z)
  {
  }

  datatype StoredProfile = StoredProfile(
    id: Option<string>,
    name: Option<string>,
    executables: Option<seq<string>>,
    version: Option<string>,
    ocrRegions: Option<seq<OcrRegion>>,
    templates: Option<seq<TemplateDefinition>>,
    rules: Option<seq<RuleDefinition>>,
    labeledRegions: Option<seq<LabeledRegion>>,
    screens: Option<seq<ScreenDefinition>>,
    screenRecognitionEnabled: Option<bool>,
    screenCheckIntervalMs: Option<u32>
  )

  /** `GameProfile` deserialisation: the first seven fields are required;
      labelled regions and screens default to empty, screen recognition to
      off and the check interval to 500 ms. Nested records are taken as
      already decoded. */
  function DecodeProfile(s: StoredProfile): (r: Result<GameProfile>)
    ensures r.Ok? <==> (s.id.Some? && s.name.Some? && s.executables.Some? && s.version.Some?
                      && s.ocrRegions.Some? && s.templates.Some? && s.rules.Some?)
    ensures r.Ok? ==> (r.value.labeledRegions == s.labeledRegions.GetOr([])
                   && r.value.screens == s.screens.GetOr([])
                   && r.value.screenRecognitionEnabled == s.screenRecognitionEnabled.GetOr(false)
                   && r.value.screenCheckIntervalMs == s.screenCheckIntervalMs.GetOr(DEFAULT_SCREEN_CHECK_INTERVAL_MS))
  {
    if s.id.None? then Missing("id")
    else if s.name.None? then Missing("name")
    else if s.executables.None? then Missing("executables")
    else if s.version.None? then Missing("version")
    else if s.ocrRegions.None? then Missing("ocr_regions")
    else if s.templates.None? then Missing("templates")
    else if s.rules.None? then Missing("rules")
    else Ok(GameProfile(
      s.id.value, s.name.value, s.executables.value, s.version.value, s.ocrRegions.value,
      s.templates.value, s.rules.value, s.labeledRegions.GetOr([]), s.screens.GetOr([]),
      s.screenRecognitionEnabled.GetOr(false),
      s.screenCheckIntervalMs.GetOr(DEFAULT_SCREEN_CHECK_INTERVAL_MS)))
  }

  function EncodeProfile(p: GameProfile): StoredProfile
  {
    StoredProfile(Some(p.id), Some(p.name), Some(p.executables), Some(p.version),
                  Some(p.ocrRegions), Some(p.templates), Some(p.rules), Some(p.labeledRegions),
                  Some(p.screens), Some(p.screenRecognitionEnabled), Some(p.screenCheckIntervalMs))
  }

  lemma ProfileRoundTrip(p: GameProfile)
    ensures DecodeProfile(EncodeProfile(p)) == Ok(p)
  {
  }
}
