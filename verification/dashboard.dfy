/** The dashboard's view selector in src/dashboard/state.rs: the views, their
    sidebar names and icons, the default view, and the conversion to and from
    the setting under which the last view is saved. The saved setting has no
    Screens value; Screens is saved as Vision. */
module Dashboard {

  /** `DashboardView`; Home is the default. */
  datatype View = Home | Capture | Overlay | Vision | Screens | Profiles | Settings

  /** `DashboardViewSetting`, the saved form of a view. */
  datatype ViewSetting = HomeSetting | CaptureSetting | OverlaySetting | VisionSetting | ProfilesSetting | SettingsSetting

  /** Every view, in declaration order. */
  const AllViews: seq<View> := [Home, Capture, Overlay, Vision, Screens, Profiles, Settings]

  /** `DashboardState::default().current_view`. */
  const DefaultView: View := Home

  /** `DashboardView::name`. */
  function Name(v: View): (s: string)
    ensures |s| > 0
  {
    match v
    case Home => "Home"
    case Capture => "Capture"
    case Overlay => "Overlay"
    case Vision => "Vision"
    case Screens => "Screens"
    case Profiles => "Profiles"
    case Settings => "Settings"
  }

  /** `DashboardView::icon`: one letter per view, "G" (a gear) for Settings. */
  function Icon(v: View): (s: string)
    ensures |s| == 1
  {
    match v
    case Home => "H"
    case Capture => "C"
    case Overlay => "O"
    case Vision => "V"
    case Screens => "S"
    case Profiles => "P"
    case Settings => "G"
  }

  /** `DashboardView::to_setting`: each view is saved as its own setting,
      except Screens, which is saved as Vision. */
  function ToSetting(v: View): (s: ViewSetting)
    ensures s == VisionSetting <==> v == Vision || v == Screens
  {
    match v
    case Home => HomeSetting
    case Capture => CaptureSetting
    case Overlay => OverlaySetting
    case Vision => VisionSetting
    case Screens => VisionSetting
    case Profiles => ProfilesSetting
    case Settings => SettingsSetting
  }

  /** `DashboardView::from_setting`: never restores Screens. */
  function FromSetting(s: ViewSetting): (v: View)
    ensures v != Screens
  {
    match s
    case HomeSetting => Home
    case CaptureSetting => Capture
    case OverlaySetting => Overlay
    case VisionSetting => Vision
    case ProfilesSetting => Profiles
    case SettingsSetting => Settings
  }

  /** Every view but Screens is restored as itself. */
  lemma FromToSetting(v: View)
    requires v != Screens
    ensures FromSetting(ToSetting(v)) == v
  {
  }

  /** Screens is restored as Vision. */
  lemma ScreensRestoredAsVision()
    ensures FromSetting(ToSetting(Screens)) == Vision
  {
  }

  /** Every setting is saved back as itself, so no saved value is lost. */
  lemma ToFromSetting(s: ViewSetting)
    ensures ToSetting(FromSetting(s)) == s
  {
  }

  /** The sidebar tells the views apart: names and icons are pairwise
      distinct, and the list holds every view once. */
  lemma NamesAndIconsDistinct(a: View, b: View)
    requires a != b
    ensures Name(a) != Name(b)
    ensures Icon(a) != Icon(b)
  {
    assert Icon(a)[0] != Icon(b)[0];
    assert Name(a)[0] != Name(b)[0] || |Name(a)| != |Name(b)|;
  }

  /** The list of views is complete and without repeats. */
  lemma AllViewsComplete(v: View)
    ensures v in AllViews
    ensures forall i, j :: 0 <= i < j < |AllViews| ==> AllViews[i] != AllViews[j]
  {
  }
}
