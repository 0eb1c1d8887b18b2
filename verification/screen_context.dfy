/** The screen context that src/analysis/rules.rs hands to game rules: what
    screen is showing, how sure the recogniser is, whether it just changed,
    and the chain of screens above it. The queries compare names ignoring
    ASCII case. */
module Rules {
  import opened Wrappers
  import opened Ascii

  datatype ScreenContext = ScreenContext(
    currentScreenId: Option<string>,
    currentScreenName: Option<string>,
    confidence: real,
    justChanged: bool,
    previousScreenId: Option<string>,
    previousScreenName: Option<string>,
    parentChain: seq<string>)

  /** `#[derive(Default)]`: no screen, zero confidence, nothing changed. */
  const DefaultContext: ScreenContext := ScreenContext(None, None, 0.0, false, None, None, [])

  /** `ScreenContext::from_match`: every argument lands in its own field. */
  function FromMatch(screenId: Option<string>, screenName: Option<string>, confidence: real,
                     justChanged: bool, previousId: Option<string>, previousName: Option<string>,
                     parentChain: seq<string>): (r: ScreenContext)
    ensures r.currentScreenId == screenId && r.currentScreenName == screenName
    ensures r.confidence == confidence && r.justChanged == justChanged
    ensures r.previousScreenId == previousId && r.previousScreenName == previousName
    ensures r.parentChain == parentChain
  {
    ScreenContext(screenId, screenName, confidence, justChanged, previousId, previousName, parentChain)
  }

  /** Every context is the one `from_match` builds from its own fields, so
      the constructor loses nothing. */
  lemma FromMatchOfFields(c: ScreenContext)
    ensures FromMatch(c.currentScreenId, c.currentScreenName, c.confidence, c.justChanged,
                      c.previousScreenId, c.previousScreenName, c.parentChain) == c
  {
  }

  /** `has_screen`. */
  function HasScreen(c: ScreenContext): (r: bool)
    ensures r <==> c.currentScreenId != None
  {
    c.currentScreenId.Some?
  }

  /** `screen_is`: false without a name, otherwise a comparison ignoring
      ASCII case. */
  function ScreenIs(c: ScreenContext, name: string): (r: bool)
    ensures r <==> c.currentScreenName.Some? && LowerStr(c.currentScreenName.value) == LowerStr(name)
  {
    match c.currentScreenName
    case None => false
    case Some(n) =>
      EqIgnoreCaseIsLowerEq(n, name);
      EqIgnoreCase(n, name)
  }

  /** `iter().any(|p| p.eq_ignore_ascii_case(name))` over a chain. */
  function AnyIgnoreCase(chain: seq<string>, name: string): (r: bool)
    ensures r <==> exists i :: 0 <= i < |chain| && LowerStr(chain[i]) == LowerStr(name)
  {
    if |chain| == 0 then false
    else
      EqIgnoreCaseIsLowerEq(chain[0], name);
      assert forall i :: 1 <= i < |chain| ==> chain[i] == chain[1..][i - 1];
      EqIgnoreCase(chain[0], name) || AnyIgnoreCase(chain[1..], name)
  }

  /** `is_child_of`: some entry of the chain carries the name, ignoring
      ASCII case; never for an empty chain. */
  function IsChildOf(c: ScreenContext, parentName: string): (r: bool)
    ensures r <==> exists i :: 0 <= i < |c.parentChain| && LowerStr(c.parentChain[i]) == LowerStr(parentName)
    ensures |c.parentChain| == 0 ==> !r
  {
    AnyIgnoreCase(c.parentChain, parentName)
  }

  /** The default context has no screen and answers no query. */
  lemma DefaultAnswersNothing(name: string)
    ensures !HasScreen(DefaultContext) && !ScreenIs(DefaultContext, name) && !IsChildOf(DefaultContext, name)
    ensures !DefaultContext.justChanged
  {
  }

  /** A context built from a match has a screen exactly when an id was
      given, and recognises its own name in any ASCII case. */
  lemma FromMatchQueries(screenId: Option<string>, name: string, confidence: real, justChanged: bool,
                         previousId: Option<string>, previousName: Option<string>, chain: seq<string>)
    ensures var c := FromMatch(screenId, Some(name), confidence, justChanged, previousId, previousName, chain);
            && (HasScreen(c) <==> screenId.Some?)
            && ScreenIs(c, name) && ScreenIs(c, LowerStr(name)) && ScreenIs(c, UpperStr(name))
            && (forall i :: 0 <= i < |chain| ==> IsChildOf(c, chain[i]))
  {
    LowerUpperLower(name);
    LowerStrIdempotent(name);
    var c := FromMatch(screenId, Some(name), confidence, justChanged, previousId, previousName, chain);
    forall i | 0 <= i < |chain| ensures IsChildOf(c, chain[i]) {
      assert LowerStr(c.parentChain[i]) == LowerStr(chain[i]);
    }
  }

  /** Both queries see a name only through its lower-cased form. */
  lemma QueriesIgnoreCase(c: ScreenContext, a: string, b: string)
    requires LowerStr(a) == LowerStr(b)
    ensures ScreenIs(c, a) == ScreenIs(c, b)
    ensures IsChildOf(c, a) == IsChildOf(c, b)
  {
  }

  /** A longer chain below the same screens keeps every answer yes. */
  lemma IsChildOfExtend(c: ScreenContext, more: seq<string>, name: string)
    requires IsChildOf(c, name)
    ensures IsChildOf(c.(parentChain := more + c.parentChain), name)
  {
    var i :| 0 <= i < |c.parentChain| && LowerStr(c.parentChain[i]) == LowerStr(name);
    assert (more + c.parentChain)[|more| + i] == c.parentChain[i];
  }
}
