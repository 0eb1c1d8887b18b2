/** The shared application state of src/shared/state.rs: the loaded game
    profiles, the active profile id, and the runtime flags. The application,
    overlay and capture configurations are not part of this model. */
module AppState {
  import opened Wrappers
  import opened Profiles
  import opened Registry

  datatype CaptureCommand = StartCapture | StopCapture

  datatype OverlayCommand = StartOverlay | StopOverlay | ToggleVisibility

  /** Runtime state that is never persisted. */
  datatype RuntimeState = RuntimeState(
    isCapturing: bool,
    isOverlayRunning: bool,
    overlayVisible: bool,
    currentCaptureTarget: Option<string>,
    lastError: Option<string>,
    captureFps: real,
    tipsDisplayed: nat,
    captureCommand: Option<CaptureCommand>,
    overlayCommand: Option<OverlayCommand>,
    sendTestTip: bool)

  const DefaultRuntime: RuntimeState :=
    RuntimeState(false, false, false, None, None, 0.0, 0, None, None, false)

  datatype SharedAppState = SharedAppState(
    profiles: seq<GameProfile>,
    activeProfileId: Option<string>,
    runtime: RuntimeState)

  const DefaultState: SharedAppState := SharedAppState([], None, DefaultRuntime)

  function ProfileId(p: GameProfile): string { p.id }

  /** The invariant the profile list is meant to keep. */
  predicate UniqueProfiles(st: SharedAppState)
  {
    UniqueKeys(st.profiles, ProfileId)
  }

  /** `active_profile`: the first profile carrying the active id, if any. */
  function ActiveProfile(st: SharedAppState): (r: Option<GameProfile>)
    ensures r.Some? <==>
      (st.activeProfileId.Some? && exists i :: 0 <= i < |st.profiles| && st.profiles[i].id == st.activeProfileId.value)
    ensures r.Some? ==> exists i :: (0 <= i < |st.profiles| && st.profiles[i] == r.value
                                     && r.value.id == st.activeProfileId.value
                                     && forall j :: 0 <= j < i ==> st.profiles[j].id != r.value.id)
  {
    match st.activeProfileId
    case None => None
    case Some(id) =>
      match Position(st.profiles, ProfileId, id)
      case None => None
      case Some(i) => Some(st.profiles[i])
  }

  /** Where the active profile sits: the profile the dashboard edits through
      `profiles.iter_mut().find(..)` on the active id. */
  function ActiveIndex(st: SharedAppState): (r: Option<nat>)
    ensures r.Some? ==> r.value < |st.profiles| && ActiveProfile(st) == Some(st.profiles[r.value])
    ensures r.None? <==> ActiveProfile(st).None?
  {
    match st.activeProfileId
    case None => None
    case Some(id) => Position(st.profiles, ProfileId, id)
  }

  /** `set_active_profile`: the id is stored as given. */
  function SetActiveProfile(st: SharedAppState, id: Option<string>): (r: SharedAppState)
    ensures r.activeProfileId == id
    ensures r.profiles == st.profiles && r.runtime == st.runtime
  {
    st.(activeProfileId := id)
  }

  /** `add_profile`: every profile with the same id is dropped, then the new
      one is appended. */
  function AddProfile(st: SharedAppState, p: GameProfile): (r: SharedAppState)
    ensures |r.profiles| >= 1 && r.profiles[|r.profiles| - 1] == p
    ensures forall i :: 0 <= i < |r.profiles| - 1 ==> r.profiles[i].id != p.id
    ensures IsSubsequence(r.profiles[..|r.profiles| - 1], st.profiles)
    ensures forall q :: q in st.profiles && q.id != p.id ==> q in r.profiles
    ensures r.activeProfileId == st.activeProfileId && r.runtime == st.runtime
  {
    var kept := Retain(st.profiles, ProfileId, p.id);
    var r := st.(profiles := kept + [p]);
    assert r.profiles[..|r.profiles| - 1] == kept;
    assert forall i :: 0 <= i < |kept| ==> kept[i] in kept;
    r
  }

  /** Adding a profile keeps the profile ids distinct, and afterwards exactly
      one profile carries the added id. */
  lemma AddProfileKeepsUnique(st: SharedAppState, p: GameProfile)
    requires UniqueProfiles(st)
    ensures UniqueProfiles(AddProfile(st, p))
  {
    var r := AddProfile(st, p);
    var kept := r.profiles[..|r.profiles| - 1];
    SubsequenceKeepsUnique(kept, st.profiles, ProfileId);
    assert forall i :: 0 <= i < |kept| ==> r.profiles[i] == kept[i];
  }

  /** Whatever the list held before, the added profile is the only one with
      its id, so the active-profile lookup for that id finds it. */
  lemma AddProfileThenActive(st: SharedAppState, p: GameProfile)
    ensures ActiveProfile(SetActiveProfile(AddProfile(st, p), Some(p.id))) == Some(p)
  {
    var r := SetActiveProfile(AddProfile(st, p), Some(p.id));
    assert r.profiles[|r.profiles| - 1].id == p.id;
  }

  /** `remove_profile`: the first profile with the id is taken out and
      returned; the active id is cleared only when it named that id. */
  function RemoveProfile(st: SharedAppState, id: string): (r: (SharedAppState, Option<GameProfile>))
    ensures r.1.Some? <==> exists i :: 0 <= i < |st.profiles| && st.profiles[i].id == id
    ensures r.1.None? ==> r.0 == st
    ensures r.1.Some? ==> r.1.value in st.profiles && r.1.value.id == id
    ensures r.1.Some? ==> |r.0.profiles| == |st.profiles| - 1
    ensures r.1.Some? ==> r.0.activeProfileId == (if st.activeProfileId == Some(id) then None else st.activeProfileId)
    ensures r.0.runtime == st.runtime
  {
    match Position(st.profiles, ProfileId, id)
    case None => (st, None)
    case Some(pos) =>
      var active := if st.activeProfileId == Some(id) then None else st.activeProfileId;
      (SharedAppState(st.profiles[..pos] + st.profiles[pos + 1..], active, st.runtime), Some(st.profiles[pos]))
  }

  /** With distinct ids, removing a profile drops exactly that profile and
      keeps every other one in its order, and the ids stay distinct. */
  lemma RemoveProfileIsRetain(st: SharedAppState, id: string)
    requires UniqueProfiles(st)
    ensures RemoveProfile(st, id).0.profiles == Retain(st.profiles, ProfileId, id)
    ensures UniqueProfiles(RemoveProfile(st, id).0)
  {
    match Position(st.profiles, ProfileId, id)
    case None =>
      RetainAbsent(st.profiles, ProfileId, id);
    case Some(pos) =>
      RemoveFirstIsRetain(st.profiles, ProfileId, id, pos);
      SubsequenceKeepsUnique(Retain(st.profiles, ProfileId, id), st.profiles, ProfileId);
  }

  /** After removing the active profile no profile is active. */
  lemma RemoveActiveClearsActive(st: SharedAppState, id: string)
    requires UniqueProfiles(st) && st.activeProfileId == Some(id)
    ensures ActiveProfile(RemoveProfile(st, id).0).None?
  {
    RemoveProfileIsRetain(st, id);
  }

  /** `RuntimeState::set_error`. */
  function SetError(rt: RuntimeState, error: string): (r: RuntimeState)
    ensures r.lastError == Some(error)
    ensures r == rt.(lastError := r.lastError)
  {
    rt.(lastError := Some(error))
  }

  /** `RuntimeState::clear_error`. */
  function ClearError(rt: RuntimeState): (r: RuntimeState)
    ensures r.lastError.None?
    ensures r == rt.(lastError := r.lastError)
  {
    rt.(lastError := None)
  }

  /** Setting then clearing an error restores the state that had no error. */
  lemma SetThenClearError(rt: RuntimeState, error: string)
    ensures ClearError(SetError(rt, error)).lastError.None?
    ensures ClearError(SetError(rt, error)) == ClearError(rt)
  {
  }
}
