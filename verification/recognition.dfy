/** The screen recognizer of src/vision/screen_recognition.rs: its screen
    table and template caches, anchor matching, full-screenshot matching,
    and the priority-ordered recognition pass.

    Image correlation (`compute_image_similarity` before its final clamp),
    image resizing, template decoding and the OCR callback are inputs of the
    model; the decisions taken on their results are modelled. */
module Recognition {
  import opened Wrappers
  import opened Numeric
  import opened Profiles
  import opened GrayImages
  import opened Levenshtein
  import opened Sorting
  import opened Hierarchy

  /** `ScreenRecognitionConfig`. */
  datatype RecognitionConfig = RecognitionConfig(
    fullMatchThreshold: real,
    anchorMatchThreshold: real,
    matchScale: real,
    enableCache: bool,
    cacheTtlMs: nat
  )

  const DefaultRecognitionConfig := RecognitionConfig(0.7, 0.75, 0.5, true, 200)

  datatype AnchorMatch = AnchorMatch(anchorId: string, matched: bool, confidence: real, detectedText: Option<string>)

  datatype ScreenMatch = ScreenMatch(
    screenId: string,
    screenName: string,
    confidence: real,
    matchedAnchors: seq<AnchorMatch>,
    parentChain: seq<string>
  )

  /** `ScreenRecognizer` without its two caches (last match and hierarchy):
      the screens by id and the decoded templates by anchor id and by
      screen id. */
  datatype Recognizer = Recognizer(
    screens: seq<ScreenDefinition>,
    config: RecognitionConfig,
    anchorTemplates: map<string, GrayImage>,
    screenTemplates: map<string, GrayImage>
  )

  /** What comes from outside the model: the raw correlation score of two
      images, image resizing, and the optional OCR callback taking a pixel
      rectangle (x, y, w, h). */
  datatype Sensors = Sensors(
    correlation: (GrayImage, GrayImage) -> real,
    resize: (GrayImage, nat, nat) -> GrayImage,
    ocr: Option<(nat, nat, nat, nat) -> Option<string>>
  )

  /** `ScreenRecognizer::with_config`: no screens, no templates. */
  function NewRecognizer(config: RecognitionConfig): (r: Recognizer)
    ensures r.screens == [] && r.config == config
    ensures r.anchorTemplates == map[] && r.screenTemplates == map[]
  {
    Recognizer([], config, map[], map[])
  }

  // ---------------------------------------------------------------------
  // Screen table maintenance
  // ---------------------------------------------------------------------

  lemma LookupCons(x: ScreenDefinition, rest: seq<ScreenDefinition>)
    ensures forall id :: Lookup([x] + rest, id) == if x.id == id then Some(x) else Lookup(rest, id)
  {
    assert ([x] + rest)[1..] == rest;
  }

  lemma UniqueCons(x: ScreenDefinition, rest: seq<ScreenDefinition>)
    ensures UniqueIds([x] + rest) <==> UniqueIds(rest) && Lookup(rest, x.id).None?
  {
    var t := [x] + rest;
    assert forall i :: 1 <= i < |t| ==> t[i] == rest[i - 1];
    if UniqueIds(t) {
      forall i | 0 <= i < |rest| ensures rest[i].id != x.id {
        assert t[0] == x && t[i + 1] == rest[i];
      }
      forall i, j | 0 <= i < j < |rest| ensures rest[i].id != rest[j].id {
        assert t[i + 1] == rest[i] && t[j + 1] == rest[j];
      }
    }
    if UniqueIds(rest) && Lookup(rest, x.id).None? {
      forall i, j | 0 <= i < j < |t| ensures t[i].id != t[j].id {
        if i > 0 {
          assert t[i] == rest[i - 1] && t[j] == rest[j - 1];
        }
      }
    }
  }

  /** `HashMap::insert`: replaces the screen with the same id in place, or
      appends a new one. */
  function Insert(screens: seq<ScreenDefinition>, s: ScreenDefinition): (r: seq<ScreenDefinition>)
    requires UniqueIds(screens)
    ensures UniqueIds(r)
    ensures Lookup(r, s.id) == Some(s)
    ensures forall id :: id != s.id ==> Lookup(r, id) == Lookup(screens, id)
    ensures |r| == if Lookup(screens, s.id).Some? then |screens| else |screens| + 1
  {
    if |screens| == 0 then
      LookupCons(s, []);
      [s]
    else
      var x, tail := screens[0], screens[1..];
      assert screens == [x] + tail;
      UniqueCons(x, tail);
      LookupCons(x, tail);
      if x.id == s.id then
        UniqueCons(s, tail);
        LookupCons(s, tail);
        [s] + tail
      else
        var rest := Insert(tail, s);
        UniqueCons(x, rest);
        LookupCons(x, rest);
        [x] + rest
  }

  /** `HashMap::remove`. */
  function Delete(screens: seq<ScreenDefinition>, id: string): (r: seq<ScreenDefinition>)
    requires UniqueIds(screens)
    ensures UniqueIds(r)
    ensures Lookup(r, id).None?
    ensures forall k :: k != id ==> Lookup(r, k) == Lookup(screens, k)
    ensures |r| == if Lookup(screens, id).Some? then |screens| - 1 else |screens|
  {
    if |screens| == 0 then []
    else
      var x, tail := screens[0], screens[1..];
      assert screens == [x] + tail;
      UniqueCons(x, tail);
      LookupCons(x, tail);
      if x.id == id then tail
      else
        var rest := Delete(tail, id);
        UniqueCons(x, rest);
        LookupCons(x, rest);
        [x] + rest
  }

  /** A visual anchor whose template data decodes. */
  predicate HasDecodableTemplate(a: ScreenAnchor, decode: seq<byte> -> Option<GrayImage>)
  {
    a.anchorType == AnchorType.Visual && a.templateData.Some? && decode(a.templateData.value).Some?
  }

  /** No anchor with id `k` has a decodable template. */
  predicate NoDecodable(anchors: seq<ScreenAnchor>, k: string, decode: seq<byte> -> Option<GrayImage>)
  {
    forall i :: 0 <= i < |anchors| && anchors[i].id == k ==> !HasDecodableTemplate(anchors[i], decode)
  }

  /** The anchor at `i` has a decodable template and no later anchor with
      its id has one: its template is the one left in the cache. */
  predicate LastDecodableAt(anchors: seq<ScreenAnchor>, i: int, decode: seq<byte> -> Option<GrayImage>)
  {
    && 0 <= i < |anchors| && HasDecodableTemplate(anchors[i], decode)
    && forall j :: i < j < |anchors| && anchors[j].id == anchors[i].id ==> !HasDecodableTemplate(anchors[j], decode)
  }

  /** Caches the decodable template of every visual anchor under the
      anchor's id, in anchor order, so the last one with an id wins. */
  function CacheAnchorTemplates(cache: map<string, GrayImage>, anchors: seq<ScreenAnchor>,
                                decode: seq<byte> -> Option<GrayImage>): (r: map<string, GrayImage>)
    ensures forall k :: k in r <==> k in cache || !NoDecodable(anchors, k, decode)
    ensures forall k :: k in cache && NoDecodable(anchors, k, decode) ==> r[k] == cache[k]
    ensures forall i :: LastDecodableAt(anchors, i, decode) ==>
              anchors[i].id in r && r[anchors[i].id] == decode(anchors[i].templateData.value).value
    decreases |anchors|
  {
    if |anchors| == 0 then cache
    else
      var a := anchors[0];
      var cache' :=
        if HasDecodableTemplate(a, decode)
        then cache[a.id := decode(a.templateData.value).value]
        else cache;
      var r := CacheAnchorTemplates(cache', anchors[1..], decode);
      CacheStep(cache, cache', anchors, decode, r);
      r
  }

  /** The first anchor's entry in front of the cache built from the
      others: what the recursion of `CacheAnchorTemplates` needs. */
  lemma CacheStep(cache: map<string, GrayImage>, cache': map<string, GrayImage>, anchors: seq<ScreenAnchor>,
                  decode: seq<byte> -> Option<GrayImage>, r: map<string, GrayImage>)
    requires |anchors| > 0
    requires cache' == if HasDecodableTemplate(anchors[0], decode)
                       then cache[anchors[0].id := decode(anchors[0].templateData.value).value] else cache
    requires forall k :: k in r <==> k in cache' || !NoDecodable(anchors[1..], k, decode)
    requires forall k :: k in cache' && NoDecodable(anchors[1..], k, decode) ==> r[k] == cache'[k]
    requires forall i :: LastDecodableAt(anchors[1..], i, decode) ==>
               anchors[1..][i].id in r && r[anchors[1..][i].id] == decode(anchors[1..][i].templateData.value).value
    ensures forall k :: k in r <==> k in cache || !NoDecodable(anchors, k, decode)
    ensures forall k :: k in cache && NoDecodable(anchors, k, decode) ==> r[k] == cache[k]
    ensures forall i :: LastDecodableAt(anchors, i, decode) ==>
              anchors[i].id in r && r[anchors[i].id] == decode(anchors[i].templateData.value).value
  {
    var a, tail := anchors[0], anchors[1..];
    assert forall i :: 1 <= i < |anchors| ==> anchors[i] == tail[i - 1];
    forall k ensures NoDecodable(anchors, k, decode) <==>
                     (a.id == k ==> !HasDecodableTemplate(a, decode)) && NoDecodable(tail, k, decode) {
      if !NoDecodable(tail, k, decode) {
        var i :| 0 <= i < |tail| && tail[i].id == k && HasDecodableTemplate(tail[i], decode);
        assert anchors[i + 1] == tail[i];
      }
    }
    forall i | LastDecodableAt(anchors, i, decode)
      ensures anchors[i].id in r && r[anchors[i].id] == decode(anchors[i].templateData.value).value
    {
      if i == 0 {
        assert NoDecodable(tail, a.id, decode);
      } else {
        assert LastDecodableAt(tail, i - 1, decode);
      }
    }
  }

  /** `add_screen`: caches the screen's decodable templates and stores the
      screen under its id, replacing any screen with that id. */
  function AddScreen(rec: Recognizer, s: ScreenDefinition, decode: seq<byte> -> Option<GrayImage>): (r: Recognizer)
    requires UniqueIds(rec.screens)
    ensures UniqueIds(r.screens) && r.config == rec.config
    ensures Lookup(r.screens, s.id) == Some(s)
    ensures forall id :: id != s.id ==> Lookup(r.screens, id) == Lookup(rec.screens, id)
    ensures |r.screens| == if Lookup(rec.screens, s.id).Some? then |rec.screens| else |rec.screens| + 1
    ensures s.fullTemplate.Some? && decode(s.fullTemplate.value.imageData).Some? ==>
              s.id in r.screenTemplates && r.screenTemplates[s.id] == decode(s.fullTemplate.value.imageData).value
    ensures !(s.fullTemplate.Some? && decode(s.fullTemplate.value.imageData).Some?) ==> r.screenTemplates == rec.screenTemplates
    ensures forall k :: k != s.id ==>
              && (k in r.screenTemplates <==> k in rec.screenTemplates)
              && (k in rec.screenTemplates ==> r.screenTemplates[k] == rec.screenTemplates[k])
    ensures forall k :: k in r.anchorTemplates <==> k in rec.anchorTemplates || !NoDecodable(s.anchors, k, decode)
    ensures forall k :: k in rec.anchorTemplates && NoDecodable(s.anchors, k, decode) ==>
              r.anchorTemplates[k] == rec.anchorTemplates[k]
    ensures forall i :: LastDecodableAt(s.anchors, i, decode) ==>
              s.anchors[i].id in r.anchorTemplates
              && r.anchorTemplates[s.anchors[i].id] == decode(s.anchors[i].templateData.value).value
  {
    var anchors := CacheAnchorTemplates(rec.anchorTemplates, s.anchors, decode);
    var full :=
      if s.fullTemplate.Some? && decode(s.fullTemplate.value.imageData).Some?
      then rec.screenTemplates[s.id := decode(s.fullTemplate.value.imageData).value]
      else rec.screenTemplates;
    Recognizer(Insert(rec.screens, s), rec.config, anchors, full)
  }

  /** `remove_screen`: returns the removed screen, if any, and drops the
      templates cached for it and its anchors. */
  function RemoveScreen(rec: Recognizer, id: string): (r: (Recognizer, Option<ScreenDefinition>))
    requires UniqueIds(rec.screens)
    ensures r.1 == Lookup(rec.screens, id)
    ensures UniqueIds(r.0.screens) && Lookup(r.0.screens, id).None?
    ensures forall k :: k != id ==> Lookup(r.0.screens, k) == Lookup(rec.screens, k)
    ensures |r.0.screens| == if r.1.Some? then |rec.screens| - 1 else |rec.screens|
    ensures r.1.Some? ==> id !in r.0.screenTemplates
    ensures r.1.Some? ==> forall a :: a in r.1.value.anchors ==> a.id !in r.0.anchorTemplates
    ensures r.1.None? ==> r.0.screenTemplates == rec.screenTemplates && r.0.anchorTemplates == rec.anchorTemplates
    ensures forall k :: k in r.0.screenTemplates ==> k in rec.screenTemplates && r.0.screenTemplates[k] == rec.screenTemplates[k]
    ensures forall k :: k in r.0.anchorTemplates ==> k in rec.anchorTemplates && r.0.anchorTemplates[k] == rec.anchorTemplates[k]
    ensures forall k :: k in rec.screenTemplates && k != id ==> k in r.0.screenTemplates
    ensures forall k :: k in rec.anchorTemplates && (r.1.None? || forall a :: a in r.1.value.anchors ==> a.id != k) ==>
              k in r.0.anchorTemplates
  {
    match Lookup(rec.screens, id)
    case None => (Recognizer(rec.screens, rec.config, rec.anchorTemplates, rec.screenTemplates), None)
    case Some(s) =>
      var anchorIds := set a | a in s.anchors :: a.id;
      (Recognizer(Delete(rec.screens, id), rec.config, rec.anchorTemplates - anchorIds, rec.screenTemplates - {id}), Some(s))
  }

  // ---------------------------------------------------------------------
  // Anchor matching
  // ---------------------------------------------------------------------

  /** `compute_image_similarity`: the correlation, clamped to [0, 1]. */
  function Similarity(sensors: Sensors, img: GrayImage, template: GrayImage): (r: real)
    ensures 0.0 <= r <= 1.0
  {
    Clamp01(sensors.correlation(img, template))
  }

  /** The anchor's normalised bounds in pixels of a `width` x `height`
      frame, each by a saturating `as u32` cast. */
  function AnchorPixels(b: Bounds, width: nat, height: nat): (r: (nat, nat, nat, nat))
    ensures r.0 <= U32_MAX && r.1 <= U32_MAX && r.2 <= U32_MAX && r.3 <= U32_MAX
    ensures b.x <= 0.0 ==> r.0 == 0
  {
    (ToU32(b.x * width as real), ToU32(b.y * height as real),
     ToU32(b.w * width as real), ToU32(b.h * height as real))
  }

  /** `match_visual_anchor`: without a cached template the anchor is
      unmatched with confidence 0; otherwise the similarity of the region
      under the anchor decides against the anchor threshold. */
  function MatchVisualAnchor(rec: Recognizer, anchor: ScreenAnchor, frame: GrayImage, sensors: Sensors,
                             x: nat, y: nat, w: nat, h: nat): (m: AnchorMatch)
    requires Valid(frame)
    ensures m.anchorId == anchor.id && m.detectedText.None?
    ensures 0.0 <= m.confidence <= 1.0
    ensures anchor.id !in rec.anchorTemplates ==> !m.matched && m.confidence == 0.0
    ensures m.matched <==> anchor.id in rec.anchorTemplates && m.confidence >= rec.config.anchorMatchThreshold
    ensures anchor.id in rec.anchorTemplates ==>
              m.confidence == Similarity(sensors, ExtractGrayRegion(frame, x, y, w, h), rec.anchorTemplates[anchor.id])
  {
    if anchor.id !in rec.anchorTemplates then AnchorMatch(anchor.id, false, 0.0, None)
    else
      var region := ExtractGrayRegion(frame, x, y, w, h);
      var confidence := Similarity(sensors, region, rec.anchorTemplates[anchor.id]);
      AnchorMatch(anchor.id, confidence >= rec.config.anchorMatchThreshold, confidence, None)
  }

  /** What OCR reads in a pixel rectangle: nothing without a callback. */
  function ReadText(ocr: Option<(nat, nat, nat, nat) -> Option<string>>, x: nat, y: nat, w: nat, h: nat): Option<string>
  {
    match ocr
    case None => None
    case Some(f) => f(x, y, w, h)
  }

  /** `match_text_anchor`. */
  function MatchTextAnchor(anchor: ScreenAnchor, ocr: Option<(nat, nat, nat, nat) -> Option<string>>,
                           x: nat, y: nat, w: nat, h: nat): (m: AnchorMatch)
    ensures m.anchorId == anchor.id
    ensures 0.0 <= m.confidence <= 1.0
    ensures anchor.expectedText.None? ==> !m.matched && m.confidence == 0.0 && m.detectedText.None?
    ensures anchor.expectedText.Some? ==> m.detectedText == ReadText(ocr, x, y, w, h)
    ensures m.detectedText.None? ==> !m.matched && m.confidence == 0.0
    ensures m.detectedText.Some? ==>
              m.confidence == TextSimilarity(m.detectedText.value, anchor.expectedText.value)
    ensures m.matched <==> m.detectedText.Some? && m.confidence >= anchor.textSimilarity
  {
    match anchor.expectedText
    case None => AnchorMatch(anchor.id, false, 0.0, None)
    case Some(expected) =>
      var detected := ReadText(ocr, x, y, w, h);
      match detected
      case None => AnchorMatch(anchor.id, false, 0.0, None)
      case Some(text) =>
        var similarity := TextSimilarity(text, expected);
        AnchorMatch(anchor.id, similarity >= anchor.textSimilarity, similarity, detected)
  }

  /** A text anchor matches a reading that equals the expected text up to
      ASCII case whenever its threshold is at most 1, and the outcome does
      not depend on the case of the expected text. */
  lemma TextAnchorIgnoresCase(anchor: ScreenAnchor, anchor': ScreenAnchor,
                              ocr: Option<(nat, nat, nat, nat) -> Option<string>>, x: nat, y: nat, w: nat, h: nat)
    requires anchor.expectedText.Some? && anchor'.expectedText.Some?
    requires Ascii.EqIgnoreCase(anchor.expectedText.value, anchor'.expectedText.value)
    requires anchor'.id == anchor.id && anchor'.textSimilarity == anchor.textSimilarity
    ensures MatchTextAnchor(anchor, ocr, x, y, w, h) == MatchTextAnchor(anchor', ocr, x, y, w, h)
    ensures var t := ReadText(ocr, x, y, w, h);
            t.Some? && Ascii.EqIgnoreCase(t.value, anchor.expectedText.value) && anchor.textSimilarity <= 1.0 ==>
              MatchTextAnchor(anchor, ocr, x, y, w, h).matched
  {
    var t := ReadText(ocr, x, y, w, h);
    if t.Some? {
      Ascii.EqIgnoreCaseEquivalence(t.value, t.value, t.value);
      SimilarityCaseInsensitive(t.value, anchor.expectedText.value, t.value, anchor'.expectedText.value);
      Ascii.EqIgnoreCaseIsLowerEq(t.value, anchor.expectedText.value);
    }
  }

  /** `match_anchor`: converts the bounds to pixels and dispatches on the
      anchor type. */
  function MatchAnchor(rec: Recognizer, anchor: ScreenAnchor, frame: GrayImage, sensors: Sensors): (m: AnchorMatch)
    requires Valid(frame)
    ensures m.anchorId == anchor.id && 0.0 <= m.confidence <= 1.0
  {
    var (x, y, w, h) := AnchorPixels(anchor.bounds, frame.width, frame.height);
    match anchor.anchorType
    case Visual => MatchVisualAnchor(rec, anchor, frame, sensors, x, y, w, h)
    case TextAnchor => MatchTextAnchor(anchor, sensors.ocr, x, y, w, h)
  }

  /** One result per anchor, in anchor order. */
  function AnchorResults(rec: Recognizer, anchors: seq<ScreenAnchor>, frame: GrayImage, sensors: Sensors): (rs: seq<AnchorMatch>)
    requires Valid(frame)
    ensures |rs| == |anchors|
    ensures forall i :: 0 <= i < |anchors| ==> rs[i] == MatchAnchor(rec, anchors[i], frame, sensors)
  {
    seq(|anchors|, i requires 0 <= i < |anchors| => MatchAnchor(rec, anchors[i], frame, sensors))
  }

  /** Every required anchor matched. */
  predicate RequiredMatched(anchors: seq<ScreenAnchor>, rs: seq<AnchorMatch>)
    requires |rs| == |anchors|
  {
    forall i :: 0 <= i < |anchors| && anchors[i].required ==> rs[i].matched
  }

  /** Sum and number of the confidences of the matched results. */
  function MatchedTotal(rs: seq<AnchorMatch>): real
  {
    if |rs| == 0 then 0.0
    else MatchedTotal(rs[..|rs| - 1]) + (if rs[|rs| - 1].matched then rs[|rs| - 1].confidence else 0.0)
  }

  function MatchedCount(rs: seq<AnchorMatch>): nat
  {
    if |rs| == 0 then 0
    else MatchedCount(rs[..|rs| - 1]) + (if rs[|rs| - 1].matched then 1 else 0)
  }

  /** Mean confidence of the matched results; 0 when none matched. */
  function MeanConfidence(rs: seq<AnchorMatch>): real
  {
    if MatchedCount(rs) > 0 then MatchedTotal(rs) / (MatchedCount(rs) as real) else 0.0
  }

  lemma {:induction false} MatchedTotalBounds(rs: seq<AnchorMatch>)
    requires forall i :: 0 <= i < |rs| ==> 0.0 <= rs[i].confidence <= 1.0
    ensures 0.0 <= MatchedTotal(rs) <= MatchedCount(rs) as real
  {
    if |rs| > 0 {
      MatchedTotalBounds(rs[..|rs| - 1]);
    }
  }

  /** With confidences in [0, 1] the mean is in [0, 1]. */
  lemma MeanConfidenceBounds(rs: seq<AnchorMatch>)
    requires forall i :: 0 <= i < |rs| ==> 0.0 <= rs[i].confidence <= 1.0
    ensures 0.0 <= MeanConfidence(rs) <= 1.0
  {
    MatchedTotalBounds(rs);
    if MatchedCount(rs) > 0 {
      var t, n := MatchedTotal(rs), MatchedCount(rs) as real;
      assert t / n <= 1.0 by {
        assert t <= n;
      }
    }
  }

  /** The score of `match_anchors`: none without anchors or when a
      required anchor failed, otherwise the mean matched confidence. */
  function AnchorsScore(rec: Recognizer, s: ScreenDefinition, frame: GrayImage, sensors: Sensors): (r: Option<real>)
    requires Valid(frame)
    ensures r.Some? ==> 0.0 <= r.value <= 1.0
  {
    var rs := AnchorResults(rec, s.anchors, frame, sensors);
    if |s.anchors| == 0 || !RequiredMatched(s.anchors, rs) then None
    else
      MeanConfidenceBounds(rs);
      Some(MeanConfidence(rs))
  }

  /** The counters of `match_anchors` after the results `rs` of the anchors
      `anchors`: required anchors seen and matched, and the sum and number
      of matched confidences. */
  ghost predicate Tally(anchors: seq<ScreenAnchor>, rs: seq<AnchorMatch>,
                        requiredMatched: nat, requiredTotal: nat, total: real, count: nat)
  {
    && |rs| == |anchors|
    && requiredMatched <= requiredTotal
    && (requiredMatched == requiredTotal <==> RequiredMatched(anchors, rs))
    && total == MatchedTotal(rs) && count == MatchedCount(rs)
  }

  /** The counter updates for one more anchor and its result. */
  method TallyStep(anchors: seq<ScreenAnchor>, rs: seq<AnchorMatch>, a: ScreenAnchor, m: AnchorMatch,
                   requiredMatched: nat, requiredTotal: nat, total: real, count: nat)
    returns (requiredMatched': nat, requiredTotal': nat, total': real, count': nat)
    requires Tally(anchors, rs, requiredMatched, requiredTotal, total, count)
    ensures Tally(anchors + [a], rs + [m], requiredMatched', requiredTotal', total', count')
  {
    requiredMatched', requiredTotal', total', count' := requiredMatched, requiredTotal, total, count;
    if a.required {
      requiredTotal' := requiredTotal' + 1;
      if m.matched {
        requiredMatched' := requiredMatched' + 1;
      }
    }
    if m.matched {
      total' := total' + m.confidence;
      count' := count' + 1;
    }
    var rs', anchors' := rs + [m], anchors + [a];
    assert rs'[..|rs|] == rs;
    assert forall i :: 0 <= i < |anchors| ==> anchors'[i] == anchors[i] && rs'[i] == rs[i];
  }

  /** `match_anchors`: the source's single pass over the anchors, counting
      required anchors and summing matched confidences. */
  method MatchAnchors(rec: Recognizer, s: ScreenDefinition, frame: GrayImage, sensors: Sensors, ghost d: nat)
    returns (r: Option<ScreenMatch>)
    requires Valid(frame) && WalkEndsWithin(rec.screens, s.id, d)
    ensures var rs := AnchorResults(rec, s.anchors, frame, sensors);
            && (r.Some? <==> |s.anchors| > 0 && RequiredMatched(s.anchors, rs))
            && (r.Some? ==> r.value.confidence == MeanConfidence(rs) && r.value.matchedAnchors == rs)
    ensures r.Some? ==> r.value.screenId == s.id && r.value.screenName == s.name
    ensures r.Some? ==> r.value.parentChain == ParentChain(rec.screens, s.id, d)
  {
    if |s.anchors| == 0 {
      return None;
    }
    ghost var all := AnchorResults(rec, s.anchors, frame, sensors);
    var matches: seq<AnchorMatch> := [];
    var requiredMatched, requiredTotal := 0, 0;
    var total, count := 0.0, 0;
    var i := 0;
    while i < |s.anchors|
      invariant 0 <= i <= |s.anchors|
      invariant matches == all[..i]
      invariant Tally(s.anchors[..i], matches, requiredMatched, requiredTotal, total, count)
    {
      var m := MatchAnchor(rec, s.anchors[i], frame, sensors);
      requiredMatched, requiredTotal, total, count :=
        TallyStep(s.anchors[..i], matches, s.anchors[i], m, requiredMatched, requiredTotal, total, count);
      assert s.anchors[..i] + [s.anchors[i]] == s.anchors[..i + 1];
      assert all[..i + 1] == matches + [m];
      matches := matches + [m];
      i := i + 1;
    }
    assert s.anchors[..i] == s.anchors && matches == all;
    if requiredMatched < requiredTotal {
      return None;
    }
    var confidence := if count > 0 then total / count as real else 0.0;
    r := Some(ScreenMatch(s.id, s.name, confidence, matches, ParentChain(rec.screens, s.id, d)));
  }

  // ---------------------------------------------------------------------
  // Full-screenshot matching
  // ---------------------------------------------------------------------

  /** The image compared at the configured match scale: resized to
      `(dimension * scale) as u32` unless the scale is within 0.01 of 1. */
  function AtMatchScale(config: RecognitionConfig, sensors: Sensors, img: GrayImage): GrayImage
  {
    if Abs(config.matchScale - 1.0) > 0.01
    then sensors.resize(img, ToU32(img.width as real * config.matchScale), ToU32(img.height as real * config.matchScale))
    else img
  }

  function Abs(v: real): real { if v < 0.0 then -v else v }

  /** The score of `match_full_screenshot`: none without a cached template
      or below the full-match threshold, otherwise the similarity of frame
      and template at the match scale. */
  function FullScore(rec: Recognizer, s: ScreenDefinition, frame: GrayImage, sensors: Sensors): (r: Option<real>)
    ensures s.id !in rec.screenTemplates ==> r.None?
    ensures r.Some? ==> rec.config.fullMatchThreshold <= r.value <= 1.0 && 0.0 <= r.value
    ensures s.id in rec.screenTemplates ==>
              var c := Similarity(sensors, AtMatchScale(rec.config, sensors, frame),
                                  AtMatchScale(rec.config, sensors, rec.screenTemplates[s.id]));
              (r.Some? <==> c >= rec.config.fullMatchThreshold) && (r.Some? ==> r.value == c)
  {
    if s.id !in rec.screenTemplates then None
    else
      var c := Similarity(sensors, AtMatchScale(rec.config, sensors, frame),
                          AtMatchScale(rec.config, sensors, rec.screenTemplates[s.id]));
      if c >= rec.config.fullMatchThreshold then Some(c) else None
  }

  /** `match_full_screenshot`. */
  function MatchFullScreenshot(rec: Recognizer, s: ScreenDefinition, frame: GrayImage, sensors: Sensors, ghost d: nat)
    : (r: Option<ScreenMatch>)
    requires WalkEndsWithin(rec.screens, s.id, d)
    ensures r.Some? <==> FullScore(rec, s, frame, sensors).Some?
    ensures r.Some? ==> r.value == ScreenMatch(s.id, s.name, FullScore(rec, s, frame, sensors).value, [],
                                               ParentChain(rec.screens, s.id, d))
  {
    match FullScore(rec, s, frame, sensors)
    case None => None
    case Some(c) => Some(ScreenMatch(s.id, s.name, c, [], ParentChain(rec.screens, s.id, d)))
  }

  /** The score of `match_screen`, by the screen's match mode. */
  function ScreenScore(rec: Recognizer, s: ScreenDefinition, frame: GrayImage, sensors: Sensors): (r: Option<real>)
    requires Valid(frame)
    ensures r.Some? ==> 0.0 <= r.value <= 1.0
  {
    match s.matchMode
    case FullScreenshot => FullScore(rec, s, frame, sensors)
    case Anchors => AnchorsScore(rec, s, frame, sensors)
  }

  /** `match_screen`. */
  method MatchScreen(rec: Recognizer, s: ScreenDefinition, frame: GrayImage, sensors: Sensors, ghost d: nat)
    returns (r: Option<ScreenMatch>)
    requires Valid(frame) && WalkEndsWithin(rec.screens, s.id, d)
    ensures r.Some? <==> ScreenScore(rec, s, frame, sensors).Some?
    ensures r.Some? ==> r.value.confidence == ScreenScore(rec, s, frame, sensors).value
    ensures r.Some? ==> r.value.screenId == s.id && r.value.parentChain == ParentChain(rec.screens, s.id, d)
  {
    match s.matchMode
    case FullScreenshot =>
      r := MatchFullScreenshot(rec, s, frame, sensors, d);
    case Anchors =>
      r := MatchAnchors(rec, s, frame, sensors, d);
  }

  // ---------------------------------------------------------------------
  // Recognition pass
  // ---------------------------------------------------------------------

  /** The order of the pass: all screens, stable-sorted by descending
      priority. */
  function PassOrder(rec: Recognizer): (order: seq<ScreenDefinition>)
    ensures SortedDesc(order, ScreenPriority)
    ensures multiset(order) == multiset(rec.screens)
  {
    SortDesc(rec.screens, ScreenPriority)
  }

  /** A screen is tried only if it is enabled and is a root or its parent
      already matched in this pass; it matches if it scores at least its
      own threshold. */
  predicate Accepted(rec: Recognizer, s: ScreenDefinition, frame: GrayImage, sensors: Sensors, matched: set<string>)
    requires Valid(frame)
  {
    && s.enabled
    && (s.parentId.None? || s.parentId.value in matched)
    && ScreenScore(rec, s, frame, sensors).Some?
    && ScreenScore(rec, s, frame, sensors).value >= s.matchThreshold
  }

  /** Ids of the screens matched among the first `k` of the pass. */
  function MatchedBefore(rec: Recognizer, frame: GrayImage, sensors: Sensors, k: nat): set<string>
    requires Valid(frame) && k <= |PassOrder(rec)|
  {
    if k == 0 then {}
    else
      var m := MatchedBefore(rec, frame, sensors, k - 1);
      var s := PassOrder(rec)[k - 1];
      if Accepted(rec, s, frame, sensors, m) then m + {s.id} else m
  }

  /** The screen at position `j` of the pass matched. */
  predicate AcceptedAt(rec: Recognizer, frame: GrayImage, sensors: Sensors, j: nat)
    requires Valid(frame) && j < |PassOrder(rec)|
  {
    Accepted(rec, PassOrder(rec)[j], frame, sensors, MatchedBefore(rec, frame, sensors, j))
  }

  function ScoreAt(rec: Recognizer, frame: GrayImage, sensors: Sensors, j: nat): real
    requires Valid(frame) && j < |PassOrder(rec)| && AcceptedAt(rec, frame, sensors, j)
  {
    ScreenScore(rec, PassOrder(rec)[j], frame, sensors).value
  }

  /** Every id matched before position `k` belongs to a screen that matched
      at an earlier position: a child is only tried after its parent has
      matched. */
  lemma {:induction false} MatchedEarlier(rec: Recognizer, frame: GrayImage, sensors: Sensors, k: nat, id: string)
    requires Valid(frame) && k <= |PassOrder(rec)|
    requires id in MatchedBefore(rec, frame, sensors, k)
    ensures exists j :: 0 <= j < k && PassOrder(rec)[j].id == id && AcceptedAt(rec, frame, sensors, j)
  {
    var m := MatchedBefore(rec, frame, sensors, k - 1);
    if id in m {
      MatchedEarlier(rec, frame, sensors, k - 1, id);
    }
  }

  /** No screen among the first `i` of the pass matched with a positive
      score. */
  ghost predicate NoLeader(rec: Recognizer, frame: GrayImage, sensors: Sensors, i: nat)
    requires Valid(frame) && i <= |PassOrder(rec)|
  {
    forall k :: 0 <= k < i && AcceptedAt(rec, frame, sensors, k) ==> ScoreAt(rec, frame, sensors, k) <= 0.0
  }

  /** Among the first `i` of the pass, the screen at `j` matched with the
      highest score, that score is positive, and every earlier match scored
      strictly less. */
  ghost predicate LeaderAt(rec: Recognizer, frame: GrayImage, sensors: Sensors, i: nat, j: nat)
    requires Valid(frame) && i <= |PassOrder(rec)|
  {
    && j < i && AcceptedAt(rec, frame, sensors, j)
    && ScoreAt(rec, frame, sensors, j) > 0.0
    && (forall k :: 0 <= k < i && AcceptedAt(rec, frame, sensors, k) ==>
          ScoreAt(rec, frame, sensors, k) <= ScoreAt(rec, frame, sensors, j))
    && (forall k :: 0 <= k < j && AcceptedAt(rec, frame, sensors, k) ==>
          ScoreAt(rec, frame, sensors, k) < ScoreAt(rec, frame, sensors, j))
  }

  /** How the leader changes when position `i` is examined: only a strictly
      higher score replaces it. */
  lemma LeaderStep(rec: Recognizer, frame: GrayImage, sensors: Sensors, i: nat, j: nat)
    requires Valid(frame) && i < |PassOrder(rec)|
    ensures (NoLeader(rec, frame, sensors, i) && !(AcceptedAt(rec, frame, sensors, i) && ScoreAt(rec, frame, sensors, i) > 0.0))
              ==> NoLeader(rec, frame, sensors, i + 1)
    ensures (NoLeader(rec, frame, sensors, i) && AcceptedAt(rec, frame, sensors, i) && ScoreAt(rec, frame, sensors, i) > 0.0)
              ==> LeaderAt(rec, frame, sensors, i + 1, i)
    ensures (LeaderAt(rec, frame, sensors, i, j)
              && !(AcceptedAt(rec, frame, sensors, i) && ScoreAt(rec, frame, sensors, i) > ScoreAt(rec, frame, sensors, j)))
              ==> LeaderAt(rec, frame, sensors, i + 1, j)
    ensures (LeaderAt(rec, frame, sensors, i, j)
              && AcceptedAt(rec, frame, sensors, i) && ScoreAt(rec, frame, sensors, i) > ScoreAt(rec, frame, sensors, j))
              ==> LeaderAt(rec, frame, sensors, i + 1, i)
  {
    if NoLeader(rec, frame, sensors, i) {
      NoLeaderStep(rec, frame, sensors, i);
    }
    if LeaderAt(rec, frame, sensors, i, j) {
      if AcceptedAt(rec, frame, sensors, i) && ScoreAt(rec, frame, sensors, i) > ScoreAt(rec, frame, sensors, j) {
        LeaderReplaced(rec, frame, sensors, i, j);
      } else {
        LeaderKept(rec, frame, sensors, i, j);
      }
    }
  }

  /** With no leader yet, position `i` becomes the leader exactly when it
      matched with a positive score. */
  lemma NoLeaderStep(rec: Recognizer, frame: GrayImage, sensors: Sensors, i: nat)
    requires Valid(frame) && i < |PassOrder(rec)| && NoLeader(rec, frame, sensors, i)
    ensures (AcceptedAt(rec, frame, sensors, i) && ScoreAt(rec, frame, sensors, i) > 0.0) ==>
              LeaderAt(rec, frame, sensors, i + 1, i)
    ensures !(AcceptedAt(rec, frame, sensors, i) && ScoreAt(rec, frame, sensors, i) > 0.0) ==>
              NoLeader(rec, frame, sensors, i + 1)
  {
  }

  /** A leader stays while position `i` does not match with a strictly
      higher score. */
  lemma LeaderKept(rec: Recognizer, frame: GrayImage, sensors: Sensors, i: nat, j: nat)
    requires Valid(frame) && i < |PassOrder(rec)| && LeaderAt(rec, frame, sensors, i, j)
    requires !(AcceptedAt(rec, frame, sensors, i) && ScoreAt(rec, frame, sensors, i) > ScoreAt(rec, frame, sensors, j))
    ensures LeaderAt(rec, frame, sensors, i + 1, j)
  {
    forall k | 0 <= k < i + 1 && AcceptedAt(rec, frame, sensors, k)
      ensures ScoreAt(rec, frame, sensors, k) <= ScoreAt(rec, frame, sensors, j)
    {
      if k < i {
        assert ScoreAt(rec, frame, sensors, k) <= ScoreAt(rec, frame, sensors, j);
      }
    }
  }

  /** A match at `i` with a strictly higher score than the leader's takes
      the lead. */
  lemma LeaderReplaced(rec: Recognizer, frame: GrayImage, sensors: Sensors, i: nat, j: nat)
    requires Valid(frame) && i < |PassOrder(rec)| && LeaderAt(rec, frame, sensors, i, j)
    requires AcceptedAt(rec, frame, sensors, i) && ScoreAt(rec, frame, sensors, i) > ScoreAt(rec, frame, sensors, j)
    ensures LeaderAt(rec, frame, sensors, i + 1, i)
  {
    var top := ScoreAt(rec, frame, sensors, i);
    var lead := ScoreAt(rec, frame, sensors, j);
    assert 0.0 < lead < top;
    forall k | 0 <= k < i && AcceptedAt(rec, frame, sensors, k)
      ensures ScoreAt(rec, frame, sensors, k) < top
    {
      assert ScoreAt(rec, frame, sensors, k) <= lead;
    }
    forall k | 0 <= k < i + 1 && AcceptedAt(rec, frame, sensors, k)
      ensures ScoreAt(rec, frame, sensors, k) <= top
    {
    }
  }

  /** Position `i` of the pass, examined with the set of ids matched so far. */
  lemma AcceptedAtStep(rec: Recognizer, frame: GrayImage, sensors: Sensors, i: nat, matched: set<string>)
    requires Valid(frame) && i < |PassOrder(rec)| && matched == MatchedBefore(rec, frame, sensors, i)
    ensures AcceptedAt(rec, frame, sensors, i) <==> Accepted(rec, PassOrder(rec)[i], frame, sensors, matched)
    ensures MatchedBefore(rec, frame, sensors, i + 1) ==
              if AcceptedAt(rec, frame, sensors, i) then matched + {PassOrder(rec)[i].id} else matched
  {
  }

  /** The state of the pass after examining its first `i` screens: the
      matched ids, the best match so far and its score. */
  ghost predicate PassState(rec: Recognizer, frame: GrayImage, sensors: Sensors, i: nat,
                            matched: set<string>, best: Option<ScreenMatch>, bestConfidence: real, bestAt: nat)
    requires Valid(frame)
  {
    && i <= |PassOrder(rec)|
    && matched == MatchedBefore(rec, frame, sensors, i)
    && (forall id :: id in matched ==> WalkEnds(rec.screens, id))
    && (best.None? ==> bestConfidence == 0.0 && NoLeader(rec, frame, sensors, i))
    && (best.Some? ==>
          && LeaderAt(rec, frame, sensors, i, bestAt)
          && best.value.screenId == PassOrder(rec)[bestAt].id
          && best.value.confidence == bestConfidence == ScoreAt(rec, frame, sensors, bestAt))
  }

  /** One iteration of the loop of `recognize`: skip a disabled screen or
      one whose parent has not matched; otherwise match it and keep it if
      it reaches its threshold and beats the best score so far. */
  method PassStep(rec: Recognizer, frame: GrayImage, sensors: Sensors, i: nat,
                  matched: set<string>, best: Option<ScreenMatch>, bestConfidence: real, bestAt: nat)
    returns (matched': set<string>, best': Option<ScreenMatch>, bestConfidence': real, bestAt': nat)
    requires UniqueIds(rec.screens) && Valid(frame) && i < |PassOrder(rec)|
    requires PassState(rec, frame, sensors, i, matched, best, bestConfidence, bestAt)
    ensures PassState(rec, frame, sensors, i + 1, matched', best', bestConfidence', bestAt')
  {
    matched', best', bestConfidence', bestAt' := matched, best, bestConfidence, bestAt;
    var s := PassOrder(rec)[i];
    assert s in rec.screens by {
      assert s in multiset(PassOrder(rec));
    }
    AcceptedAtStep(rec, frame, sensors, i, matched);
    LeaderStep(rec, frame, sensors, i, bestAt);
    if !s.enabled || (s.parentId.Some? && s.parentId.value !in matched) {
      return;
    }
    LookupStored(rec.screens, s);
    ghost var d: nat := 0;
    if s.parentId.Some? {
      d :| WalkEndsWithin(rec.screens, s.parentId.value, d);
      d := d + 1;
    }
    assert WalkEndsWithin(rec.screens, s.id, d);
    var m := MatchScreen(rec, s, frame, sensors, d);
    if m.Some? && m.value.confidence >= s.matchThreshold {
      matched' := matched + {s.id};
      assert WalkEndsWithin(rec.screens, s.id, d);
      if m.value.confidence > bestConfidence {
        bestConfidence' := m.value.confidence;
        best' := m;
        bestAt' := i;
      }
    }
  }

  /** `recognize` without its result cache: the best match of the pass.
      The frame is the grayscale image of the captured BGRA frame. */
  method Recognize(rec: Recognizer, frame: GrayImage, sensors: Sensors) returns (best: Option<ScreenMatch>)
    requires UniqueIds(rec.screens) && Valid(frame)
    ensures best.None? ==> NoLeader(rec, frame, sensors, |PassOrder(rec)|)
    ensures best.Some? ==>
              exists j :: 0 <= j < |PassOrder(rec)| && LeaderAt(rec, frame, sensors, |PassOrder(rec)|, j)
                && best.value.screenId == PassOrder(rec)[j].id
                && best.value.confidence == ScoreAt(rec, frame, sensors, j)
    ensures best.Some? ==>
              exists s :: s in rec.screens && s.id == best.value.screenId && s.enabled
                && best.value.confidence >= s.matchThreshold
  {
    var n := |PassOrder(rec)|;
    best := None;
    var bestConfidence := 0.0;
    var bestAt: nat := 0;
    var matched: set<string> := {};
    var i := 0;
    while i < n
      invariant 0 <= i <= n
      invariant PassState(rec, frame, sensors, i, matched, best, bestConfidence, bestAt)
    {
      matched, best, bestConfidence, bestAt := PassStep(rec, frame, sensors, i, matched, best, bestConfidence, bestAt);
      i := i + 1;
    }
    if best.Some? {
      var s := PassOrder(rec)[bestAt];
      assert s in multiset(rec.screens);
      assert s.enabled && best.value.confidence >= s.matchThreshold;
    }
  }
}
