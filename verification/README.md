# GamersToolKit core, modelled in Dafny

GamersToolKit is a Windows overlay for games. It captures the game window,
recognises which game screen is showing, reads text from zones of the frame,
and shows tips. The user edits per-game profiles in a dashboard. This project
models the decision-making core of that program as pure Dafny functions,
methods and lemmas:

- **Screen recognition** (`Recognition`, `Hierarchy`, `GrayImages`,
  `Levenshtein`). The screen registry with its add and remove operations, the
  parent/child hierarchy and the parent chain. Matching a screen by
  full-screenshot comparison or by visual and text anchors, and the
  recognition pass, which picks the earliest screen (in pass order) with the
  highest score: a later screen replaces the leader only with a strictly
  higher confidence, and depth plays no part. Text
  similarity uses the Levenshtein distance.
- **Screen priority reorder** (`ScreenOrder`). The dashboard's drag-and-drop
  reordering of root screens, the priorities it writes back, and the delete
  actions for screens and anchors.
- **Profile registry** (`AppState`, `Registry`). The shared list of game
  profiles, the active profile, and adding and removing profiles.
- **Profile defaults** (`Profiles`). The profile and screen records and the
  defaults that serde fills in for missing fields, as decode/encode
  functions over a record of optional fields.
- **Hotkey parser** (`Hotkey`, `Ascii`). `parse_hotkey` and
  `parse_key_code`.
- **Screen context queries** (`Rules`). The screen context handed to game
  rules.
- **Pixel transforms** (`OcrPreprocess`, `WindowsOcr`, `Tensors`, `Vision`).
  The OCR preprocessing filters and the bilinear upscale. The RGBA/BGRA swap
  for Windows OCR. The tensor conversions for the ONNX OCR models. Region
  extraction and preprocessing in the vision pipeline.
- **Zone coordinate conversions** (`ZoneSelection`). Screen versus
  normalised coordinates, and the drag-to-select state machine.
- **Dashboard view round-trips** (`Dashboard`). Views, their names and
  icons, and their persisted form.

Sensors the core calls but does not define become function parameters:
- the template correlation score
- the OCR engine
- the image resize
They are then quantified over, so every property holds for any sensor.

Floating-point numbers are modelled as mathematical reals. Rust's saturating
`as` casts from float to integer are written out (`Numeric.ToU32`,
`Numeric.ToUsize`, `Numeric.ClampToByte`). Hash maps whose iteration order the
code depends on are given as sequences in that order.

## Model

| member | source | states |
|---|---|---|
| Ascii.LowerStr | src/vision/screen_recognition.rs:690-691 | the lower-cased string has the same length and maps each character through ASCII lower-casing |
| Ascii.UpperStr | src/hotkey.rs:20 | the upper-cased token has the same length and maps each character through ASCII upper-casing |
| Ascii.LowerUpperLower | src/vision/screen_recognition.rs:690-691 | upper-casing first does not change the lower-cased form |
| Ascii.LowerStrIdempotent | src/vision/screen_recognition.rs:690-691 | lower-casing twice equals lower-casing once and leaves no upper-case letter |
| Ascii.EqIgnoreCaseIsLowerEq | src/analysis/rules.rs:107 | `eq_ignore_ascii_case` holds exactly when the lower-cased strings are equal |
| Ascii.EqIgnoreCaseEquivalence | src/analysis/rules.rs:107 | the case-insensitive comparison is reflexive, symmetric and transitive |
| Ascii.TrimStart | src/hotkey.rs:14 | the result is a suffix of the input, starts with non-white space, and only white space was dropped |
| Ascii.TrimEnd | src/hotkey.rs:14 | the result is a prefix of the input, ends with non-white space, and only white space was dropped |
| Ascii.Trim | src/hotkey.rs:14 | the trimmed token is an infix of the piece with only white space before and after it, and it neither starts nor ends with white space |
| Ascii.TrimDrops | src/hotkey.rs:14 | dropping a white-space prefix and then a white-space suffix leaves an infix with only white space around it |
| Ascii.TrimUnchanged | src/hotkey.rs:14 | a piece with no white space at its ends is its own trim |
| Ascii.Split | src/hotkey.rs:14 | splitting on '+' gives at least one piece, and no piece contains '+' |
| Ascii.SplitJoin | src/hotkey.rs:14 | joining the pieces with '+' gives back the input string |
| Ascii.JoinSplit | src/hotkey.rs:14 | splitting a '+'-join of '+'-free pieces gives the pieces back |
| Ascii.SplitNoSep | src/hotkey.rs:14 | a string without '+' is a single piece |
| Ascii.SplitAfter | src/hotkey.rs:14 | the first '+' ends the first piece |
| Ascii.UpperUnchanged | src/hotkey.rs:20 | a token without lower-case letters is its own upper-cased form |
| Hotkey.FunctionNumber | src/hotkey.rs:41-52 | only F1 to F12 name function keys |
| Hotkey.NamedKey | src/hotkey.rs:94-109 | a named special key has a name of 2 to 9 characters |
| Hotkey.ParseKeyCode | src/hotkey.rs:38-127 | a parsed key is one of the known keys; an unknown token fails with "Unknown key code: " followed by the token |
| Hotkey.ParseKeyCodeNames | src/hotkey.rs:38-127 | a token parses to a key if and only if it is one of that key's spellings |
| Hotkey.ParsedIsNamed | src/hotkey.rs:38-127 | every accepted token is a spelling of the key it yields |
| Hotkey.NamedIsParsed | src/hotkey.rs:38-127 | every spelling of a key parses to that key |
| Hotkey.FKeyIsParsed | src/hotkey.rs:41-52 | every spelling of F1 to F12 parses to that function key |
| Hotkey.NumpadIsParsed | src/hotkey.rs:111-121 | both spellings NUMPADn and NUMn parse to the numpad digit key |
| Hotkey.NamedKeyIsParsed | src/hotkey.rs:94-109 | every spelling of a special key parses to that key |
| Hotkey.EditingKeyIsParsed | src/hotkey.rs:95-101 | each spelling of Space, Enter, Tab, Escape, Backspace, Delete and Insert is found as that key |
| Hotkey.NavigationKeyIsParsed | src/hotkey.rs:102-105 | each spelling of Home, End, PageUp and PageDown is found as that key |
| Hotkey.ArrowKeyIsParsed | src/hotkey.rs:106-109 | each spelling of the arrow keys is found as that key |
| Hotkey.NamedKeyNames | src/hotkey.rs:94-109 | a named key is found only under one of its spellings |
| Hotkey.KeyAliases | src/hotkey.rs:96-105 | two aliases of one key, such as ESC and ESCAPE, parse alike |
| Hotkey.ModifierOf | src/hotkey.rs:22-25 | a modifier token is 3 to 7 characters long |
| Hotkey.Tokens | src/hotkey.rs:14-20 | one token per '+'-separated piece, each piece trimmed and upper-cased |
| Hotkey.KeyTokens | src/hotkey.rs:26-29 | the key tokens are exactly the tokens that are not modifiers; there are none exactly when every token is a modifier |
| Hotkey.ParseHotkey | src/hotkey.rs:13-35 | a parsed hotkey always carries a known key |
| Hotkey.ScanKeepsValid | src/hotkey.rs:19-31 | the loop only ever records a known key |
| Hotkey.ScanSpec | src/hotkey.rs:19-31 | the loop fails exactly when some key token fails to parse, and then with the first failing token's error; on success the flags are those of the modifier tokens, and the key is the last key token's |
| Hotkey.ScanOutcome | src/hotkey.rs:19-31 | the loop succeeds exactly when every key token parses, and a failure carries the first failing token's error |
| Hotkey.ScanFlags | src/hotkey.rs:22-25 | a modifier flag is set exactly when it was set before or some token names it |
| Hotkey.ScanKey | src/hotkey.rs:26-29 | the key is the last key token's, or the key from before when there is no key token |
| Hotkey.ScanKeySkip | src/hotkey.rs:22-25 | a leading modifier token does not affect the key |
| Hotkey.ScanKeyTake | src/hotkey.rs:26-29 | a later key token replaces an earlier one |
| Hotkey.ScanKeyStep | src/hotkey.rs:26-29 | the last key token after prepending a key token is that token only when there was none |
| Hotkey.ParseHotkeySpec | src/hotkey.rs:13-35 | parsing succeeds if and only if there is a key token and every key token parses; the key is the last key token's and the flags are exactly those named |
| Hotkey.FinishSpec | src/hotkey.rs:31-34 | the loop followed by the no-key check succeeds exactly when there is a key token and every key token parses |
| Hotkey.OnlyModifiersFails | src/hotkey.rs:33 | a string of modifiers only fails with "No key code found in hotkey string" |
| Hotkey.ParseHotkeyOfTokens | src/hotkey.rs:13-35 | the result depends on the string only through its tokens |
| Hotkey.SingleToken | src/hotkey.rs:14-20 | a string without '+' or white space at its ends is one upper-cased token |
| Hotkey.TokensOfParts | src/hotkey.rs:14-20 | a '+'-join of clean pieces tokenises into the pieces' upper-cased forms |
| Hotkey.ParseF | src/hotkey.rs:41-49 | "F1" to "F9" parse to the function keys 1 to 9 |
| Hotkey.ExampleCtrlShiftO | src/hotkey.rs:240-245 | "Ctrl+Shift+O" gives control and shift with key O |
| Hotkey.ExampleAltF1 | src/hotkey.rs:246-251 | "Alt+F1" gives alt with key F1 |
| Hotkey.ExampleF9 | src/hotkey.rs:234-239 | "F9" gives key F9 without modifiers |
| Hotkey.ExampleInvalidKey | src/hotkey.rs:252-257 | "InvalidKey" is refused as an unknown key code |
| Hotkey.ExampleEmpty | src/hotkey.rs:258-263 | the empty string is refused, because its one token is the empty key name |
| AppState.ActiveProfile | src/shared/state.rs:84-88 | there is an active profile exactly when an id is set and some profile carries it; the result is the first profile with that id |
| AppState.ActiveIndex | src/dashboard/views/screens.rs:387 | the position of the active profile in the list, present exactly when there is an active profile |
| AppState.SetActiveProfile | src/shared/state.rs:91-93 | the active id becomes the given one; the profiles and runtime state are unchanged |
| AppState.AddProfile | src/shared/state.rs:96-100 | the new profile is last and is the only one with its id; the others keep their order; no other profile is lost |
| AppState.AddProfileKeepsUnique | src/shared/state.rs:96-100 | adding keeps profile ids distinct |
| AppState.AddProfileThenActive | src/shared/state.rs:84-100 | after adding a profile and selecting its id, the active profile is the added one |
| AppState.RemoveProfile | src/shared/state.rs:103-113 | a profile is returned exactly when one has the id; the list shrinks by one; the active id is cleared only when it named the removed profile; nothing changes when no profile matches |
| AppState.RemoveProfileIsRetain | src/shared/state.rs:103-113 | with distinct ids, removal drops exactly the profiles with the id, keeps the others' order and keeps ids distinct |
| AppState.RemoveActiveClearsActive | src/shared/state.rs:106-108 | removing the active profile leaves no active profile |
| AppState.SetError | src/shared/state.rs:168-170 | the last error becomes the message; no other runtime field changes |
| AppState.ClearError | src/shared/state.rs:163-165 | the last error is cleared; no other runtime field changes |
| AppState.SetThenClearError | src/shared/state.rs:163-170 | setting then clearing an error is the same as clearing it |
| Rules.FromMatch | src/analysis/rules.rs:83-101 | every argument is stored in its own field |
| Rules.FromMatchOfFields | src/analysis/rules.rs:64-101 | rebuilding a context from its own fields gives it back, so no field is lost |
| Rules.HasScreen | src/analysis/rules.rs:119-121 | true exactly when a current screen id is set |
| Rules.ScreenIs | src/analysis/rules.rs:104-109 | true exactly when a current name is set and equals the query ignoring ASCII case |
| Rules.AnyIgnoreCase | src/analysis/rules.rs:113-115 | true exactly when some chain entry equals the name ignoring ASCII case |
| Rules.IsChildOf | src/analysis/rules.rs:112-116 | true exactly when some ancestor in the parent chain has the name, ignoring ASCII case; never for an empty chain |
| Rules.DefaultAnswersNothing | src/analysis/rules.rs:63-79 | the default context has no screen, has not changed, and answers no name query |
| Rules.FromMatchQueries | src/analysis/rules.rs:83-121 | a context built from a match has a screen exactly when an id was given, recognises its own name in any case, and is a child of every chain entry |
| Rules.QueriesIgnoreCase | src/analysis/rules.rs:104-116 | both name queries give the same answer for names that differ only in ASCII case |
| Rules.IsChildOfExtend | src/analysis/rules.rs:112-116 | prepending more ancestors keeps every yes answer |
| Dashboard.Name | src/dashboard/state.rs:33-43 | every view has a non-empty display name |
| Dashboard.Icon | src/dashboard/state.rs:46-56 | every view's icon is a single character |
| Dashboard.ToSetting | src/dashboard/state.rs:59-69 | a view is saved as the Vision setting exactly when it is Vision or Screens |
| Dashboard.FromSetting | src/dashboard/state.rs:72-81 | a restored view is never Screens |
| Dashboard.FromToSetting | src/dashboard/state.rs:59-81 | saving then restoring gives back every view except Screens |
| Dashboard.ScreensRestoredAsVision | src/dashboard/state.rs:65 | Screens is restored as Vision |
| Dashboard.ToFromSetting | src/dashboard/state.rs:59-81 | restoring then saving gives back every setting |
| Dashboard.NamesAndIconsDistinct | src/dashboard/state.rs:33-56 | distinct views have distinct names and distinct icons |
| Dashboard.AllViewsComplete | src/dashboard/state.rs:20-29 | the list of views holds every view exactly once |
| Registry.Position | src/shared/state.rs:104 | the first index whose element has the id; absent exactly when no element has it |
| Registry.Retain | src/shared/state.rs:98 | keeps exactly the elements whose id differs, in their order |
| Registry.RetainAbsent | src/shared/state.rs:98 | nothing is dropped when no element has the id |
| Registry.SubsequenceKeepsUnique | src/shared/state.rs:96-100 | dropping elements keeps ids distinct |
| Registry.SubsequenceMembers | src/shared/state.rs:98 | every kept element was in the original list |
| Registry.RemoveFirstIsRetain | src/shared/state.rs:104-109 | with distinct ids, removing at the first position of an id equals retaining every other id |
| Registry.PermutationKeepsUnique | src/dashboard/views/screens.rs:379-433 | rearranging a list keeps its ids distinct |
| Registry.SameMembersPermutation | src/dashboard/views/screens.rs:379-433 | two lists with distinct ids and the same members are rearrangements of each other |
| Profiles.DecodeAnchor | src/storage/profiles.rs:171-194 | an anchor decodes exactly when id, type and bounds are present; a missing text similarity becomes 0.8, a missing required flag becomes true, and missing template or text becomes none |
| Profiles.AnchorRoundTrip | src/storage/profiles.rs:171-190 | storing every field of an anchor and reading it back gives the same anchor |
| Profiles.DecodeAnchors | src/storage/profiles.rs:133-134 | a list of anchors decodes exactly when each anchor does, element by element |
| Profiles.DecodeScreen | src/storage/profiles.rs:119-157 | a screen is accepted exactly when it has an id, a name and a match mode and every stored anchor decodes, and then its anchors are the decoded ones, in order; a missing parent is none, threshold 0.8, enabled and notification true, priority 0, and the lists empty |
| Profiles.ScreenRoundTrip | src/storage/profiles.rs:119-153 | storing every field of a screen and reading it back gives the same screen |
| Profiles.ScreenDefaults | src/storage/profiles.rs:119-157 | a stored screen naming only id, name and match mode reads back with every default |
| Profiles.DecodeRegion | src/storage/profiles.rs:57-77 | an OCR region decodes exactly when id, bounds and content type are present; the name defaults to "", enabled to true and preprocessing to none |
| Profiles.RegionRoundTrip | src/storage/profiles.rs:57-73 | storing every field of an OCR region and reading it back gives the same region |
| Profiles.DecodeProfile | src/storage/profiles.rs:9-40 | a profile decodes exactly when its seven required fields are present; labeled regions and screens default to empty, recognition to off, and the check interval to 500 ms |
| Profiles.ProfileRoundTrip | src/storage/profiles.rs:9-36 | storing every field of a profile and reading it back gives the same profile |
| Numeric.ToUsize | src/vision/preprocess.rs:202-205 | a float cast to `usize` is 0 for non-positive values and otherwise the largest whole number not above it |
| Numeric.ToU32 | src/vision/screen_recognition.rs:439-442 | a float cast to `u32` is 0 for non-positive values, `u32::MAX` from `u32::MAX` on, and the truncated value in between |
| Numeric.ClampToByte | src/vision/ocr_preprocess.rs:87-88 | clamping to [0, 255] and casting gives 0 below, 255 above, and the truncated value in between |
| Numeric.ClampToByteMonotone | src/vision/ocr_preprocess.rs:87-88 | a larger value never gives a smaller byte |
| Numeric.ToUsizeMonotone | src/vision/preprocess.rs:202-205 | a larger value never gives a smaller size |
| Numeric.Least | src/vision/mod.rs:442-443 | the minimum fold returns a member of the list that is at most every member |
| Numeric.Greatest | src/vision/mod.rs:444-445 | the maximum fold returns a member of the list that is at least every member |
| Numeric.Xs | src/vision/mod.rs:442-445 | the x coordinates of the points, in order |
| Numeric.Ys | src/vision/mod.rs:442-445 | the y coordinates of the points, in order |
| GrayImages.Blank | src/vision/screen_recognition.rs:615 | a new image of the given size is well formed and all black |
| GrayImages.ExtractGrayRegion | src/vision/screen_recognition.rs:605-628 | the offset is clamped into the image and the size to what remains; an empty clamped size gives a 1x1 black image; otherwise each pixel is the image's pixel at the offset |
| GrayImages.RegionInsideUnclamped | src/vision/screen_recognition.rs:605-628 | a request inside the image keeps its requested size |
| GrayImages.RegionOutsideIsBlank | src/vision/screen_recognition.rs:609-616 | a request starting at or past the right or bottom edge gives the 1x1 black image |
| Sorting.InsertDesc | src/vision/screen_recognition.rs:193 | inserting into a sorted list keeps it sorted by descending priority and adds exactly the one element |
| Sorting.SortDesc | src/vision/screen_recognition.rs:252 | the sorted list is a permutation of the input in non-increasing priority order |
| Sorting.SortDescStable | src/vision/screen_recognition.rs:252 | the sort is stable: of two elements with equal priority, the earlier one stays earlier |
| Sorting.InsertDescShape | src/vision/screen_recognition.rs:193 | the inserted element lands right after exactly the elements of larger priority |
| Sorting.InsertDescAt | src/vision/screen_recognition.rs:193 | the same placement stated index by index |
| Sorting.StrictlyDescUnique | src/vision/screen_recognition.rs:252 | two rearrangements of one list that are both in strictly decreasing priority are equal |
| Sorting.SortedPermutationOfStrict | src/vision/screen_recognition.rs:252 | a sorted rearrangement of a strictly decreasing list is strictly decreasing |
| Sorting.DistinctCountAtMostOne | src/vision/screen_recognition.rs:252 | pairwise distinct elements occur at most once each |
| Sorting.CountsAtMostOneDistinct | src/vision/screen_recognition.rs:252 | elements occurring at most once each sit at distinct positions |
| Hierarchy.Lookup | src/vision/screen_recognition.rs:542 | the stored screen with the id, absent exactly when no stored screen has it |
| Hierarchy.LookupStored | src/vision/screen_recognition.rs:542 | with distinct ids, looking up a stored screen's id finds that screen |
| Hierarchy.WalkEndsMonotone | src/vision/screen_recognition.rs:542-549 | a walk up that ends within some number of steps also ends within any larger number |
| Hierarchy.ParentChain | src/vision/screen_recognition.rs:538-552 | the chain is empty exactly when the screen is unknown or has no parent; otherwise it starts at a top screen, each entry is the parent of the next, and the last is the screen's parent |
| Hierarchy.ParentChainBoundIrrelevant | src/vision/screen_recognition.rs:538-552 | the chain does not depend on the step bound used to show the loop ends |
| Hierarchy.AncestorChainShorter | src/vision/screen_recognition.rs:538-552 | every ancestor has a strictly shorter chain of its own |
| Hierarchy.ParentChainDistinct | src/vision/screen_recognition.rs:538-552 | the chain never contains the screen itself and lists each ancestor once |
| Hierarchy.ParentChainOfRootAndChild | src/vision/screen_recognition.rs:790-830 | a root has an empty chain; a child of a root has exactly that root as its chain |
| Hierarchy.ChildrenOf | src/vision/screen_recognition.rs:202-206 | exactly the stored screens whose parent is the id |
| Hierarchy.RootsOf | src/vision/screen_recognition.rs:185-190 | exactly the stored screens without a parent |
| Hierarchy.DropVisited | src/vision/screen_recognition.rs:202-206 | exactly the candidates not already on the path |
| Hierarchy.DropVisitedIsNoop | src/vision/screen_recognition.rs:202-206 | nothing is dropped when no candidate is on the path |
| Hierarchy.UnvisitedShrinks | src/vision/screen_recognition.rs:198-216 | descending to an unvisited screen strictly shrinks the set of unvisited ids |
| Hierarchy.BuildNode | src/vision/screen_recognition.rs:198-216 | the node holds the screen at its depth, with its children sorted by descending priority |
| Hierarchy.BuildChildren | src/vision/screen_recognition.rs:202-206 | one node per child screen, in order, each one level deeper |
| Hierarchy.ConsNodes | src/vision/screen_recognition.rs:202-206 | the first child's node in front of the others' nodes lines up with the children |
| Hierarchy.BuildHierarchy | src/vision/screen_recognition.rs:181-195 | one depth-0 node per parentless screen and every parentless screen gets one, sorted by descending priority |
| Hierarchy.ChildExtendsPath | src/vision/screen_recognition.rs:198-216 | with distinct ids, a child of the last screen on a root-first path is not already on it, so the recursion cannot cycle |
| Hierarchy.BuildNodeWellFormed | src/vision/screen_recognition.rs:198-216 | every node built from a root-first path is well formed: children are one level deeper, are exactly the screen's children, are sorted, and are well formed in turn |
| Hierarchy.NodeOfWellFormedKids | src/vision/screen_recognition.rs:198-216 | a node whose child nodes are well formed is well formed |
| Hierarchy.ChildrenOnPath | src/vision/screen_recognition.rs:202-206 | every child of the last screen on a root-first path extends the path |
| Hierarchy.BuildNodeShape | src/vision/screen_recognition.rs:198-216 | when no child is on the path, the node holds the sorted nodes of all its children |
| Hierarchy.SortedKidsWellFormed | src/vision/screen_recognition.rs:209 | sorting well-formed child nodes keeps the node well formed |
| Hierarchy.ChildIndex | src/vision/screen_recognition.rs:202-206 | every child screen appears in the list of children |
| Hierarchy.BuildChildrenWellFormed | src/vision/screen_recognition.rs:202-206 | the nodes built for children that extend the path are well formed |
| Hierarchy.HierarchyWellFormed | src/vision/screen_recognition.rs:181-216 | with distinct ids the whole tree is well formed |
| Levenshtein.DistStep | src/vision/screen_recognition.rs:724-730 | the reference distance of two prefixes is the minimum of deletion, insertion and substitution from the shorter prefixes |
| Levenshtein.CellIsDist | src/vision/screen_recognition.rs:719-733 | each cell of the source's matrix is the reference distance of the two prefixes |
| Levenshtein.CellFull | src/vision/screen_recognition.rs:733 | the last cell of the matrix is the distance of the whole strings |
| Levenshtein.NextRow | src/vision/screen_recognition.rs:724-730 | one pass of the outer loop turns row i-1 of the matrix into row i |
| Levenshtein.LevenshteinDistance | src/vision/screen_recognition.rs:709-734 | the result is the edit distance; an empty string is at distance the other's length |
| Levenshtein.DistAtMostMax | src/vision/screen_recognition.rs:703-705 | the distance never exceeds the longer length |
| Levenshtein.DistZeroIffEqual | src/vision/screen_recognition.rs:709-734 | the distance is zero exactly for equal strings |
| Levenshtein.DistAtMostHamming | src/vision/screen_recognition.rs:709-734 | for equal lengths the distance is at most the number of differing positions |
| Levenshtein.RatioBounds | src/vision/screen_recognition.rs:703-705 | a distance over the longer length lies in [0, 1] and is 0 exactly for distance 0 |
| Levenshtein.TextSimilarity | src/vision/screen_recognition.rs:689-706 | a value in [0, 1]; 1 for two empty strings, 0 when exactly one is empty, 1 exactly when the strings agree ignoring ASCII case, and otherwise one minus the distance over the longer length |
| Levenshtein.SimilarityCaseInsensitive | src/vision/screen_recognition.rs:690-691 | similarity depends on its inputs only up to ASCII case |
| Levenshtein.SimilarityExamples | src/vision/screen_recognition.rs:741-746 | "hello"/"hello" and "HELLO"/"hello" give 1, and "hello"/"hallo" gives 0.8 |
| Recognition.NewRecognizer | src/vision/screen_recognition.rs:105-114 | a new recognizer has the given configuration, no screens and no cached templates |
| Recognition.LookupCons | src/vision/screen_recognition.rs:542 | looking up in a list with a screen in front finds that screen for its id and otherwise looks in the rest |
| Recognition.UniqueCons | src/vision/screen_recognition.rs:151 | a list with a screen in front has distinct ids exactly when the rest does and lacks that id |
| Recognition.Insert | src/vision/screen_recognition.rs:151 | after storing, the id finds the new screen, every other id finds what it found before, ids stay distinct, and the count grows only for a new id |
| Recognition.Delete | src/vision/screen_recognition.rs:166 | after removal, the id finds nothing, every other id finds what it found before, ids stay distinct, and the count shrinks only when the id was stored |
| Recognition.CacheAnchorTemplates | src/vision/screen_recognition.rs:133-142 | an id is cached afterwards exactly when it was cached before or some visual anchor with that id has a decodable template; the entry under an id is the template of the LAST such anchor, and ids without one keep their old entry |
| Recognition.AddScreen | src/vision/screen_recognition.rs:132-153 | the screen is stored under its id, replacing any previous one; a decodable full template is cached under the screen id, otherwise the screen templates are unchanged; the cached templates of every other screen are kept; the anchor templates gain exactly the ids of anchors with decodable templates, each holding the last such anchor's template, and other entries are kept |
| Recognition.RemoveScreen | src/vision/screen_recognition.rs:156-167 | returns the stored screen with the id; afterwards no screen has the id, others are kept, and the templates of the removed screen and its anchors are gone; every other template entry of either cache is kept with its value; nothing changes when the id is unknown |
| Numeric.Clamp01 | src/vision/screen_recognition.rs:685 | the value clamped into [0, 1], unchanged when already inside; the zone selection clamps its normalised coordinates the same way |
| Recognition.Similarity | src/vision/screen_recognition.rs:631-686 | an image similarity always lies in [0, 1] |
| Recognition.AnchorPixels | src/vision/screen_recognition.rs:439-442 | the normalised bounds in pixels, each a saturating `u32` cast; a non-positive offset gives 0 |
| Recognition.MatchVisualAnchor | src/vision/screen_recognition.rs:455-488 | without a cached template the anchor fails with confidence 0; with one the confidence is the similarity of the extracted region and the template; it matches exactly when a template exists and the confidence reaches the anchor threshold |
| Recognition.MatchTextAnchor | src/vision/screen_recognition.rs:491-535 | without expected text or without a reading the anchor fails with confidence 0; otherwise the confidence is the text similarity of reading and expectation, and it matches exactly when that reaches the anchor's similarity threshold |
| Recognition.TextAnchorIgnoresCase | src/vision/screen_recognition.rs:491-535 | the outcome does not depend on the case of the expected text, and a reading equal to it up to case matches |
| Recognition.MatchAnchor | src/vision/screen_recognition.rs:427-452 | the result names the anchor and has a confidence in [0, 1] |
| Recognition.AnchorResults | src/vision/screen_recognition.rs:387-403 | one result per anchor, in anchor order |
| Recognition.MatchedTotalBounds | src/vision/screen_recognition.rs:397-400 | the summed confidence of matched anchors lies between 0 and their count |
| Recognition.MeanConfidenceBounds | src/vision/screen_recognition.rs:411-415 | the mean matched confidence lies in [0, 1] |
| Recognition.AnchorsScore | src/vision/screen_recognition.rs:366-424 | an anchor score, when there is one, lies in [0, 1] |
| Recognition.TallyStep | src/vision/screen_recognition.rs:387-403 | one loop iteration keeps the counters equal to the required count, required matched count, matched sum and matched count of the anchors seen |
| Recognition.MatchAnchors | src/vision/screen_recognition.rs:366-424 | a match exists exactly when the screen has anchors and every required anchor matched; its confidence is the mean matched confidence, it lists every anchor result, and carries the screen's parent chain |
| Recognition.FullScore | src/vision/screen_recognition.rs:324-363 | no score without a cached template; otherwise a score exactly when the similarity at the match scale reaches the full-match threshold, and then it is that similarity |
| Recognition.MatchFullScreenshot | src/vision/screen_recognition.rs:324-363 | a match exists exactly when there is a full score, with that confidence, no anchor results and the screen's parent chain |
| Recognition.ScreenScore | src/vision/screen_recognition.rs:302-321 | a screen score, when there is one, lies in [0, 1] |
| Recognition.MatchScreen | src/vision/screen_recognition.rs:302-321 | a match exists exactly when the screen's mode gives a score, with that confidence and the screen's parent chain |
| Recognition.PassOrder | src/vision/screen_recognition.rs:251-252 | the pass visits every screen once, in non-increasing priority |
| Recognition.MatchedEarlier | src/vision/screen_recognition.rs:258-277 | every id in the matched set belongs to a screen that matched earlier in the pass |
| Recognition.LeaderStep | src/vision/screen_recognition.rs:279-282 | the best match so far changes only to a screen with a strictly higher score |
| Recognition.AcceptedAtStep | src/vision/screen_recognition.rs:260-277 | a screen counts as matched exactly when it is enabled, its parent (if any) matched earlier, and it reaches its own threshold; the matched set grows by exactly that screen |
| Recognition.PassStep | src/vision/screen_recognition.rs:260-285 | one loop iteration keeps the matched set and the best match equal to their definitions over the screens seen |
| Recognition.Recognize | src/vision/screen_recognition.rs:225-299 | no result exactly when no screen matched with a positive score; otherwise the result is the earliest screen in pass order with the highest score, it is enabled, and its confidence reaches its own threshold |
| ScreenOrder.RootEntries | src/dashboard/views/screens.rs:389-392 | exactly the (id, priority) pairs of the screens without a parent, in table order |
| ScreenOrder.RootEntriesInOrder | src/dashboard/views/screens.rs:389-392 | roots keep their table order in the list |
| ScreenOrder.RootEntriesUnique | src/dashboard/views/screens.rs:389-392 | with distinct screen ids the root list has distinct ids |
| ScreenOrder.RootEntriesSameRoots | src/dashboard/views/screens.rs:389-392 | rewriting priorities does not change which ids the root list holds, place by place |
| ScreenOrder.RootOrder | src/dashboard/views/screens.rs:389-393 | the starting list holds the root entries in non-increasing priority, with distinct ids when screen ids are distinct |
| ScreenOrder.RootOrderStable | src/dashboard/views/screens.rs:393 | of two roots with equal priority, the one earlier in the table comes first |
| ScreenOrder.InsertPos | src/dashboard/views/screens.rs:406-420 | the insertion position never lies past the end of the list |
| ScreenOrder.MoveTo | src/dashboard/views/screens.rs:403-420 | removing an entry and inserting it again rearranges the list without changing its length |
| ScreenOrder.ReorderEntries | src/dashboard/views/screens.rs:395-420 | nothing happens exactly when no root has the dragged id; otherwise the result rearranges the list |
| ScreenOrder.MoveIsPermutation | src/dashboard/views/screens.rs:403-420 | taking an entry out and putting it back elsewhere rearranges the list |
| ScreenOrder.InsertedAt | src/dashboard/views/screens.rs:420 | after an insert at position k, the entry sits at k, those before keep their places, and those after move up by one |
| ScreenOrder.MovedAt | src/dashboard/views/screens.rs:403-420 | the moved list is the list without the dragged entry, with that entry at the insertion position |
| ScreenOrder.ReorderKeepsOthers | src/dashboard/views/screens.rs:403-420 | the entries other than the dragged one keep their relative order |
| ScreenOrder.ReorderToEnd | src/dashboard/views/screens.rs:413-417 | without a target, or with a target that is not among the other roots, the dragged entry goes last |
| ScreenOrder.ReorderBefore | src/dashboard/views/screens.rs:408-409 | dropped in front of a target, the dragged entry sits right before it |
| ScreenOrder.ReorderAfter | src/dashboard/views/screens.rs:410-411 | dropped behind a target, the dragged entry sits right after it |
| ScreenOrder.SetFirstPriority | src/dashboard/views/screens.rs:426-427 | only the first screen with the id gets the new priority; every other screen is unchanged and nothing but priorities changes |
| ScreenOrder.AssignPriorities | src/dashboard/views/screens.rs:425-429 | only priorities change, and only for screens whose id is listed |
| ScreenOrder.AssignedPriority | src/dashboard/views/screens.rs:425-429 | with distinct ids, the screen listed at place k gets the k-th priority |
| ScreenOrder.Priorities | src/dashboard/views/screens.rs:424-427 | one priority per listed root |
| ScreenOrder.Ids | src/dashboard/views/screens.rs:425 | the ids of the list, in order |
| ScreenOrder.NewOrder | src/dashboard/views/screens.rs:389-420 | a new order exists exactly when the dragged id names a root screen |
| ScreenOrder.RootOrderHasRoot | src/dashboard/views/screens.rs:389-400 | an id is in the starting list exactly when it names a root screen |
| ScreenOrder.ReorderScreens | src/dashboard/views/screens.rs:387-433 | the table changes exactly when the dragged id names a root, and then only in priorities |
| ScreenOrder.NewOrderFacts | src/dashboard/views/screens.rs:389-420 | the new order rearranges the root entries, and with distinct screen ids lists each id once |
| ScreenOrder.ListedIsRoot | src/dashboard/views/screens.rs:426 | a screen whose id the new order lists is a root, and the only screen with that id |
| ScreenOrder.ReorderOnlyRoots | src/dashboard/views/screens.rs:387-433 | screens with a parent are left unchanged |
| ScreenOrder.FollowNonIncreasing | src/dashboard/views/screens.rs:425-429 | priorities written from a non-increasing list never increase along the order |
| ScreenOrder.ReorderPriorityByPosition | src/dashboard/views/screens.rs:425-429 | the root at place k of the new order gets the k-th priority of the scheme |
| ScreenOrder.AsWrittenList | src/dashboard/views/screens.rs:424-427 | the as-written list at place k is `100.saturating_sub(10k)` |
| ScreenOrder.FollowAsWritten | src/dashboard/views/screens.rs:424-427 | read place by place, the as-written priorities are 100 - 10k below place 10 and 0 from there on |
| ScreenOrder.ReorderAsWrittenPriorities | src/dashboard/views/screens.rs:424-429 | as written, the root at place k gets 100 - 10k, and 0 from place 10 on |
| ScreenOrder.PrioritiesNonIncreasing | src/dashboard/views/screens.rs:424-427 | both priority schemes are non-increasing along the order |
| ScreenOrder.ReorderNonIncreasing | src/dashboard/views/screens.rs:387-433 | after a drop, priorities never increase along the new order |
| ScreenOrder.CorrectedAgreesWhenShort | src/dashboard/views/screens.rs:424-427 | the corrected scheme gives the as-written values whenever there are at most 11 roots |
| ScreenOrder.CorrectedStrictlyDecreasing | src/dashboard/views/screens.rs:424-427 | under the corrected scheme each step down the order is strictly lower |
| ScreenOrder.AsWrittenTiesFromTen | src/dashboard/views/screens.rs:424-427 | as written, the roots at places 10 and 11 are different screens that both get priority 0 |
| ScreenOrder.ReorderedRootEntries | src/dashboard/views/screens.rs:387-433 | the new table's roots are exactly the new order's ids paired with the scheme's priorities |
| ScreenOrder.RootsOfRewritten | src/dashboard/views/screens.rs:425-429 | rewriting the priorities of a rearranged root list pairs each listed id with its place's priority |
| ScreenOrder.ReorderKeepsUniqueIds | src/dashboard/views/screens.rs:387-433 | the table still has distinct ids after a drop |
| ScreenOrder.AsWrittenOrderLost | src/dashboard/views/screens.rs:424-427 | as written, with 12 or more roots, the order the table shows next time can differ from the order the user made |
| ScreenOrder.SwappedIds | src/dashboard/views/screens.rs:393 | a list showing two ids of a distinct-id list in the opposite order has different ids |
| ScreenOrder.CorrectedOrderPersists | src/dashboard/views/screens.rs:389-429 | with the corrected priorities, sorting the new table's roots gives back exactly the order the user made |
| ScreenOrder.SortRecoversOrder | src/dashboard/views/screens.rs:393 | sorting entries whose priorities strictly decrease along a list gives the list's ids back in order |
| ScreenOrder.WithScreens | src/dashboard/views/screens.rs:387 | only the given profile's screens change; the other profiles, the active id and the runtime state are kept |
| ScreenOrder.ReorderScreenPriority | src/dashboard/views/screens.rs:378-433 | the state changes exactly when there is an active profile and the dragged id names one of its roots; then only that profile's screens change, by the reorder with corrected priorities |
| ScreenOrder.DeleteScreen | src/dashboard/views/screens.rs:820-828 | with an active profile, its screens become exactly those with a different id, in their order; without one nothing changes |
| ScreenOrder.DeleteAnchor | src/dashboard/views/screens.rs:551-560 | with an active profile holding the screen, only the first screen with that id changes, and only in its anchors, which become exactly those with a different id, in order; otherwise nothing changes |
| Vision.ClampRegion | src/vision/mod.rs:467-470 | the clamped region lies inside the image and is never larger than requested; a corner inside the image stays where it is, and a region that fits is unchanged |
| Vision.RowBytes | src/vision/mod.rs:472-478 | a row that ends inside the buffer contributes four bytes per region column; one that runs past the buffer contributes nothing |
| Vision.RowInsideImage | src/vision/mod.rs:472-478 | every row of a clamped region ends inside a buffer holding the whole image |
| Vision.CopyRowsLength | src/vision/mod.rs:472-478 | when every row lies inside the buffer, the copy holds exactly one row of `4w` bytes per row copied |
| Vision.CopyRowsRow | src/vision/mod.rs:472-478 | the k-th `4w`-byte slice of the copy is exactly the region's part of image row `row + k` |
| Vision.FullImageRows | src/vision/mod.rs:472-478 | on a full image, every row of the clamped region lies inside the buffer |
| Vision.ExtractRegion | src/vision/mod.rs:456-481 | the region copies the rows of the clamped rectangle, skipping rows that do not fit in the buffer, so it never holds more than `4 w' h'` bytes for the clamped size |
| Vision.ExtractRegionLength | src/vision/mod.rs:456-481 | on a full image the extracted region has exactly `4 w' h'` bytes for the clamped size |
| Vision.ExtractRegionRow | src/vision/mod.rs:456-481 | on a full image, row k of the extracted region is exactly the bytes of image row `y' + k` from column `x'`, `4 w'` long |
| Vision.CopyRowsAtMost | src/vision/mod.rs:472-478 | rows that do not fit in a short buffer are skipped, so the copy never exceeds `4w` bytes per row |
| Vision.Ceil | src/vision/mod.rs:329-330 | the ceiling is the least integer not below the value |
| Vision.AxisScale | src/vision/mod.rs:327-330 | the per-side factor brings a non-empty side to at least 80 pixels; it is 1 for sides of 80 or more and at least 2 below; a side of zero gives the saturated `u32` maximum |
| Vision.AutoScale | src/vision/mod.rs:328-334 | the automatic factor is 1 exactly when both sides are at least 80 pixels, and otherwise lies between 2 and 4 |
| Vision.AutoScaleReaches | src/vision/mod.rs:328-334 | below the cap of four the factor brings both sides to at least 80 pixels; an empty side always gets the cap |
| Vision.EffectiveScale | src/vision/mod.rs:339 | the effective factor is whichever of the user's and the automatic factor is larger |
| Vision.RegionSettings | src/vision/mod.rs:337-368 | caller settings keep everything but the factor, which is raised to the automatic one; without settings, the defaults are enabled at the automatic factor when upscaling is needed and nothing is applied otherwise |
| Vision.PreprocessOptional | src/vision/mod.rs:364-367 | without settings the buffer and its size pass through unchanged |
| Vision.PreprocessRegionAsWritten | src/vision/mod.rs:337-368 | as written, the reported size is the requested width and height times the upscale factor, whatever was extracted |
| Vision.PreprocessRegion | src/vision/mod.rs:337-368 | with the clamped size, the reported size is the clamped width and height times the upscale factor |
| Vision.AsWrittenReadsPastRegion | src/vision/mod.rs:347-364 | a 100 by 10 request at (50, 0) on a 100 by 100 frame extracts 2000 bytes, yet is upscaled four times as a 100 by 10 image, which needs 4000 bytes |
| Vision.AsWrittenSizeMismatch | src/vision/mod.rs:347-367 | a 100 by 100 request at (50, 0) on a 100 by 100 frame passes through as 20000 bytes labelled 100 by 100 |
| Vision.PreprocessRegionDefined | src/vision/mod.rs:337-368 | with the clamped size, preprocessing a region of a full frame is always defined, given that the upscaled size fits and a sharpened region is not empty |
| Vision.PreprocessRegionMatchesSize | src/vision/mod.rs:337-368 | with the clamped size, the preprocessed buffer holds exactly the pixels its reported size promises |
| Vision.Above | src/vision/mod.rs:254 | the filter keeps exactly the regions whose confidence reaches the threshold, in their order |
| Vision.AboveAppend | src/vision/mod.rs:254 | filtering a concatenation is the concatenation of the filtered parts |
| Vision.AboveAllPass | src/vision/mod.rs:254 | when every region reaches the threshold nothing is dropped |
| Vision.AboveTwice | src/vision/mod.rs:254 | filtering twice is filtering once at the stricter threshold |
| Vision.Regions | src/vision/mod.rs:252-260 | one text region per engine result, in order, and nothing else |
| Vision.WordRegion | src/vision/mod.rs:255-259 | a recognised word keeps its text, box and confidence |
| Vision.PolygonToBounds | src/vision/mod.rs:437-453 | no points give an all-zero box; otherwise the corner is the cast of some point's coordinate and never lies past a point with non-negative coordinates |
| Vision.PolygonBoundsCover | src/vision/mod.rs:437-453 | when every coordinate lies in the `u32` range, the box covers every point, up to the two units lost by truncating corner and extent separately |
| Vision.AxisCover | src/vision/mod.rs:448-451 | on one axis, truncating the least coordinate and the extent loses less than two units |
| Vision.PaddleRegion | src/vision/mod.rs:290-296 | a PaddleOCR result keeps its text and confidence and its polygon becomes its bounding box |
| Vision.NewPipeline | src/vision/mod.rs:122-131 | a new pipeline has the configured backend and threshold, no engine, and is not ready |
| Vision.InitOcr | src/vision/mod.rs:154-196 | a ready pipeline is left alone; otherwise the selected backend's engine is created; success holds exactly when the pipeline ends ready, a failure changes nothing, and the other backend's engine is never touched |
| Vision.InitOcrIdempotent | src/vision/mod.rs:154-172 | once initialisation succeeded, any later call succeeds and keeps the engine it found |
| Vision.InitOcrKeepsOtherEngine | src/vision/mod.rs:139-141 | switching backend and initialising leaves the first backend's engine in place |
| Vision.ProcessWindowsOcr | src/vision/mod.rs:245-261 | without an engine there are no regions; otherwise an engine error is passed on, and the regions are exactly the recognised words whose confidence reaches the threshold, in the recogniser's order |
| Vision.ProcessWindowsOcrLines | src/vision/mod.rs:264-279 | without an engine there are no regions; otherwise one region per recognised line, in order, each with confidence 1.0 |
| Vision.ProcessPaddleOcr | src/vision/mod.rs:282-298 | without an engine there are no regions; otherwise an engine error is passed on, and the regions are exactly the results, reduced to boxes, whose confidence reaches the threshold, in the recogniser's order |
| Vision.ProcessFrame | src/vision/mod.rs:207-242 | the backend and granularity pick the engine's recogniser (PaddleOCR ignores granularity), a pipeline that is not ready yields no regions, and word-level results never fall below the recognition threshold |
| Vision.ProcessFrameThreshold | src/vision/mod.rs:245-261 | every word of the Windows engine whose confidence reaches the threshold appears among the results |
| Vision.ScaleFactor | src/vision/mod.rs:376 | the factor is 1 when preprocessing kept the width, and otherwise maps the processed width back to the region width |
| Vision.ToFrame | src/vision/mod.rs:377-389 | moving a box into the frame keeps text and confidence; at factor 1 the box is only offset by the region's position |
| Vision.ToFrameAll | src/vision/mod.rs:377-389 | every box of the list moved into the frame, in order |
| Vision.ScaleBackExact | src/vision/mod.rs:376-380 | a coordinate on a region upscaled k times that falls on a sample point comes back to its original coordinate |
| Vision.ProcessRegion | src/vision/mod.rs:301-417 | a pipeline that is not ready yields no regions; otherwise the regions correspond one to one, with the same text and confidence, to those found on the preprocessed region, and each box is the found box scaled by the ratio of the region width to the processed width, truncated, and offset by the region's corner; an engine error is passed on |
| Vision.ProcessRegionUnscaled | src/vision/mod.rs:301-417 | a region inside the frame, at least 80 pixels each way and without settings, is recognised as extracted, with every box shifted by the region's corner |
| OcrPreprocess.Pixels | src/vision/ocr_preprocess.rs:83 | a buffer splits into one four-byte group per complete pixel |
| OcrPreprocess.Rest | src/vision/ocr_preprocess.rs:83 | the bytes after the last complete group number the buffer length modulo four |
| OcrPreprocess.Bytes | src/vision/ocr_preprocess.rs:83 | pixels lay out as four bytes each |
| OcrPreprocess.BytesOfPixels | src/vision/ocr_preprocess.rs:83 | splitting a buffer into groups and laying them out again, followed by the rest, gives the buffer back |
| OcrPreprocess.PixelsOfBytes | src/vision/ocr_preprocess.rs:83 | laying pixels out and splitting again gives them back, and a short tail stays the rest |
| OcrPreprocess.PixelAt | src/vision/ocr_preprocess.rs:83 | group k holds bytes 4k to 4k + 3 as red, green, blue and alpha |
| OcrPreprocess.MapPixels | src/vision/ocr_preprocess.rs:83-91 | a per-pixel colour filter rewrites each complete group's colour, keeps its alpha, and leaves the trailing bytes and the length as they are |
| OcrPreprocess.MapPixelsCompose | src/vision/ocr_preprocess.rs:83-91 | filtering with f and then g is filtering once with their composition |
| OcrPreprocess.MapPixelsIdentity | src/vision/ocr_preprocess.rs:83-91 | a filter fixing every colour leaves the buffer unchanged |
| OcrPreprocess.Invert | src/vision/ocr_preprocess.rs:107-114 | every colour byte v of a complete group becomes 255 − v; alpha, the trailing bytes and the length stay |
| OcrPreprocess.InvertTwice | src/vision/ocr_preprocess.rs:107-114 | inverting twice gives the buffer back |
| OcrPreprocess.InvertExample | src/vision/ocr_preprocess.rs:247-255 | (0, 100, 255, 255) inverts to (255, 155, 0, 255) |
| OcrPreprocess.ContrastByte | src/vision/ocr_preprocess.rs:85-88 | the midpoint 128 is fixed; factor 1 changes nothing and factor 0 flattens to 128 |
| OcrPreprocess.Contrast | src/vision/ocr_preprocess.rs:82-92 | every colour byte of a complete group is moved away from 128 by the factor; alpha, the trailing bytes and the length stay |
| OcrPreprocess.ContrastMonotone | src/vision/ocr_preprocess.rs:85-88 | with a non-negative factor a brighter channel stays at least as bright |
| OcrPreprocess.ContrastOneIsIdentity | src/vision/ocr_preprocess.rs:82-92 | a factor of one leaves every buffer unchanged |
| OcrPreprocess.ContrastExample | src/vision/ocr_preprocess.rs:224-235 | doubling the contrast of (100, 128, 200, 255) gives (72, 128, 255, 255) |
| OcrPreprocess.Luma | src/vision/ocr_preprocess.rs:98 | a pixel that is already gray keeps its level |
| OcrPreprocess.Grayscale | src/vision/ocr_preprocess.rs:95-104 | the three colour bytes of each complete group all become its luma; alpha, the trailing bytes and the length stay |
| OcrPreprocess.GrayscaleTwice | src/vision/ocr_preprocess.rs:95-104 | converting to grayscale twice is converting once |
| OcrPreprocess.GrayscaleExample | src/vision/ocr_preprocess.rs:237-245 | pure red becomes gray level 76 |
| OcrPreprocess.InteriorNeighbours | src/vision/ocr_preprocess.rs:129-139 | the four neighbours of an interior byte lie inside the image buffer |
| OcrPreprocess.SharpenByte | src/vision/ocr_preprocess.rs:125-148 | strength zero returns the centre, and so do four neighbours equal to the centre |
| OcrPreprocess.Sharpen | src/vision/ocr_preprocess.rs:118-154 | the result has the input's length, and every byte off the interior (edges, alpha, trailing bytes) is unchanged |
| OcrPreprocess.SharpenInterior | src/vision/ocr_preprocess.rs:129-148 | each interior colour byte takes the kernel over its four neighbours in the ORIGINAL buffer |
| OcrPreprocess.SharpenZeroIsIdentity | src/vision/ocr_preprocess.rs:118-154 | strength zero leaves the image unchanged |
| OcrPreprocess.SharpenFlat | src/vision/ocr_preprocess.rs:118-154 | an image of one flat value has nothing to sharpen |
| OcrPreprocess.SharpenSmall | src/vision/ocr_preprocess.rs:129-130 | an image narrower or shorter than three pixels is never changed |
| OcrPreprocess.SourceCoord | src/vision/ocr_preprocess.rs:175-186 | the two source pixels sampled lie inside the image and the weight lies in [0, 1) |
| OcrPreprocess.SourceCoordOfSample | src/vision/ocr_preprocess.rs:175-186 | the output coordinate `scale * x` maps back exactly onto source pixel x with weight zero |
| OcrPreprocess.Bilinear | src/vision/ocr_preprocess.rs:197-204 | with both weights zero the result is the first corner |
| OcrPreprocess.BilinearFlat | src/vision/ocr_preprocess.rs:197-204 | four equal values interpolate to that value for any weights |
| OcrPreprocess.UpscaledPixels | src/vision/ocr_preprocess.rs:172-207 | the output has `(w·scale)·(h·scale)` pixels, each the interpolation at its own column and row |
| OcrPreprocess.Upscale | src/vision/ocr_preprocess.rs:158-210 | a scale of at most one copies the buffer; otherwise the result has four bytes per pixel of the scaled image |
| OcrPreprocess.PixelsOfUpscale | src/vision/ocr_preprocess.rs:165-207 | splitting the upscaled buffer into groups gives the output pixels |
| OcrPreprocess.UpscalePixelAtSample | src/vision/ocr_preprocess.rs:175-204 | the output pixel sampled exactly at source pixel (x, y) is that pixel |
| OcrPreprocess.UpscalePixelFlat | src/vision/ocr_preprocess.rs:175-204 | a one-colour source gives that colour at every output pixel |
| OcrPreprocess.SampleIndex | src/vision/ocr_preprocess.rs:188 | output pixel (scale·x, scale·y) sits at an index inside the output whose column and row are those coordinates |
| OcrPreprocess.UpscaleKeepsSamples | src/vision/ocr_preprocess.rs:158-210 | every source pixel reappears unchanged at output pixel (scale·x, scale·y) |
| OcrPreprocess.UpscaledPixelsFlat | src/vision/ocr_preprocess.rs:172-207 | every output pixel of a one-colour source has that colour |
| OcrPreprocess.UpscaleFlat | src/vision/ocr_preprocess.rs:158-210 | an image of one colour upscales to that colour everywhere |
| OcrPreprocess.Scaled | src/vision/ocr_preprocess.rs:44-51 | without upscaling the buffer and size pass through; with it the size is multiplied and the buffer holds exactly its pixels |
| OcrPreprocess.PreprocessDefinedOfFull | src/vision/ocr_preprocess.rs:28-78 | a buffer holding exactly its image's pixels can always be preprocessed, given that the upscaled size fits and a sharpened image is not empty |
| OcrPreprocess.Preprocess | src/vision/ocr_preprocess.rs:28-78 | disabled settings return the input; enabled ones multiply the size by the scale above one, the buffer then holding exactly its pixels, and otherwise keep size and length |
| OcrPreprocess.PreprocessData | src/vision/ocr_preprocess.rs:21-24 | the buffer alone of the full preprocessing, the input itself when disabled |
| OcrPreprocess.PreprocessNeutral | src/vision/ocr_preprocess.rs:28-78 | enabled settings that ask for no filter leave the image unchanged |
| OcrPreprocess.PreprocessInvertLast | src/vision/ocr_preprocess.rs:68-71 | inversion runs last: inverting the result gives the result of the same settings without inversion |
| OcrPreprocess.PreprocessGray | src/vision/ocr_preprocess.rs:63-71 | with grayscale on, every pixel of the result is gray, inverted or not |
| WindowsOcr.RgbaToBgra | src/vision/windows_ocr.rs:150-156 | in every complete pixel the red and blue bytes trade places; green, alpha, the trailing bytes and the length stay |
| WindowsOcr.RgbaToBgraBytes | src/vision/windows_ocr.rs:152-154 | read byte by byte: bytes 4k and 4k + 2 swap, bytes 4k + 1 and 4k + 3 stay |
| WindowsOcr.RgbaToBgraInvolution | src/vision/windows_ocr.rs:150-156 | swapping twice gives the buffer back |
| WindowsOcr.Recognize | src/vision/windows_ocr.rs:101-123 | an empty buffer or a zero side gives no words; any other image is handed to the recogniser in BGRA order |
| WindowsOcr.RecognizeText | src/vision/windows_ocr.rs:126-146 | an empty buffer or a zero side gives the empty text; any other image is read by the recogniser in BGRA order |
| WindowsOcr.EmptyImageIgnoresEngine | src/vision/windows_ocr.rs:102-104 | for an empty image the answer does not depend on the recogniser at all |
| Tensors.Zeros3 | src/vision/preprocess.rs:40 | a well-formed array of the given shape holding zero everywhere |
| Tensors.RgbaToRgb | src/vision/preprocess.rs:39-55 | a well-formed (height, width, 3) image whose every cell lies in [0, 1] |
| Tensors.RgbaToRgbPixel | src/vision/preprocess.rs:42-51 | a pixel whose colour bytes are in the buffer reads as those bytes over 255; one that is cut off stays black |
| Tensors.RgbaToRgbExample | src/vision/preprocess.rs:268-289 | in the 2 by 2 example red at (0, 0) reads as (1, 0, 0) and green at (0, 1) as (0, 1, 0) |
| Tensors.Normalize | src/vision/preprocess.rs:58-71 | a three-channel image of the same size from which scaling back by the deviation and adding the mean recovers every input cell |
| Tensors.DefaultNormalizeRange | src/vision/preprocess.rs:28-32 | under the default mean and deviation of 0.5 a colour byte v becomes v / 127.5 − 1, always in [−1, 1] |
| Tensors.HwcToNchw | src/vision/preprocess.rs:74-87 | a batch of one, channels first, whose cell (0, ch, y, x) is the image's cell (y, x, ch) |
| Tensors.NchwToHwc | src/vision/preprocess.rs:74-87 | the inverse layout: channels last again, cell for cell |
| Tensors.NchwOfHwc | src/vision/preprocess.rs:74-87 | changing the layout and back gives the image |
| Tensors.HwcOfNchw | src/vision/preprocess.rs:74-87 | every batch-of-one tensor is the layout of some image |
| Tensors.PadTo32 | src/vision/preprocess.rs:105-106 | the padded side is a multiple of 32, at least the side and less than 32 more |
| Tensors.PadTo32Least | src/vision/preprocess.rs:105-106 | no smaller multiple of 32 covers the side |
| Tensors.SourceCoord | src/vision/preprocess.rs:113-114 | the sampled source coordinate lies inside the source |
| Tensors.SampleFlat | src/vision/preprocess.rs:116-133 | interpolating a uniform channel gives its value |
| Tensors.SampleWhole | src/vision/preprocess.rs:116-133 | sampling at whole coordinates reads the cell there |
| Tensors.DetectionDims | src/vision/preprocess.rs:99-106 | the scale takes the longer side to the target (infinite for an empty image); the scaled sides never exceed the target, the longer reaches it, and the padding is to multiples of 32 |
| Tensors.FitScale | src/vision/preprocess.rs:100 | the scale takes a side of m exactly to the target, and is positive exactly when the target is |
| Tensors.ScaledSide | src/vision/preprocess.rs:101-102 | a scaled side never exceeds the target, and the longer side reaches it |
| Tensors.ResizeForDetection | src/vision/preprocess.rs:91-139 | the result has the padded size and the source's channels, every cell outside the scaled area is zero, and the scale is the one computed |
| Tensors.ResizeForDetectionFlat | src/vision/preprocess.rs:111-136 | a uniform channel stays uniform over the scaled area |
| Tensors.ResizeForDetectionIdentity | src/vision/preprocess.rs:91-139 | at a target equal to the longer side the scale is 1 and the scaled area is the image itself, cell for cell |
| Tensors.RecognitionWidth | src/vision/preprocess.rs:152-153 | the width is the scaled width truncated, capped at the maximum |
| Tensors.ResizeForRecognition | src/vision/preprocess.rs:142-187 | exactly the target number of rows, the capped width, and the source's channels |
| Tensors.ResizeForRecognitionFlat | src/vision/preprocess.rs:159-184 | a uniform channel stays uniform |
| Tensors.RecognitionWidthSame | src/vision/preprocess.rs:152-153 | at the source's own height the width is kept when it fits |
| Tensors.ResizeForRecognitionIdentity | src/vision/preprocess.rs:142-187 | an image already at the target height and no wider than the maximum comes back unchanged |
| Tensors.CropBox | src/vision/preprocess.rs:195-205 | the copied box never leaves the image and its corner lies inside it |
| Tensors.Window | src/vision/preprocess.rs:214-224 | the cells inside the box, as an image of the box's size |
| Tensors.CropPolygon | src/vision/preprocess.rs:190-225 | an empty box gives a single zero pixel; otherwise exactly the image cells inside the box |
| Tensors.CropWhole | src/vision/preprocess.rs:190-225 | a polygon reaching past every edge crops the whole image |
| Tensors.CropBoxWhole | src/vision/preprocess.rs:195-205 | a polygon reaching past every edge has the whole image as its box |
| Tensors.WindowWhole | src/vision/preprocess.rs:214-224 | the window over the whole image is the image |
| Tensors.CropVerticalLine | src/vision/preprocess.rs:207-212 | a polygon with no width inside the image gives one zero pixel |
| Tensors.PreprocessForDetection | src/vision/preprocess.rs:228-247 | a batch-of-one, three-channel tensor of the padded detection size, with the detection scale alongside |
| Tensors.NormalizedZero | src/vision/preprocess.rs:65 | a zero cell normalises to −mean / std, −1 under the default configuration |
| Tensors.DetectionPadding | src/vision/preprocess.rs:228-247 | the padding of the detection tensor holds the normalised zero, −1 under the default configuration |
| Tensors.DetectionTensorCell | src/vision/preprocess.rs:228-247 | each cell of the detection tensor is the normalised cell of the resized image |
| Tensors.NormalizeZero | src/vision/preprocess.rs:58-71 | a zero cell normalises to the normalised zero of its channel |
| Tensors.PreprocessForRecognition | src/vision/preprocess.rs:250-262 | a batch-of-one, three-channel tensor of the target height and at most the maximum width |
| ZoneSelection.AxisToNormalized | src/overlay/zone_selection.rs:191-201 | the normalised corner and extent along one axis both lie in [0, 1] |
| ZoneSelection.ScreenToNormalized | src/overlay/zone_selection.rs:186-202 | all four normalised bounds lie in [0, 1] |
| ZoneSelection.ScreenToNormalizedSymmetric | src/overlay/zone_selection.rs:186-202 | dragging backwards selects the same zone |
| ZoneSelection.AxisToScreen | src/overlay/zone_selection.rs:210-213 | along one axis the corner is the scaled position and the extent the scaled length |
| ZoneSelection.NormalizedToScreen | src/overlay/zone_selection.rs:205-214 | the rectangle's corner is the bounds' corner scaled to the screen and its size their size scaled |
| ZoneSelection.NormalizedRoundTrip | src/overlay/zone_selection.rs:186-214 | for a drag between two on-screen points, normalising and scaling back gives the rectangle spanned by the two points |
| ZoneSelection.AxisRoundTrip | src/overlay/zone_selection.rs:186-214 | along one axis the normalised corner scales back to the smaller coordinate and corner plus extent to the larger |
| ZoneSelection.DivideBack | src/overlay/zone_selection.rs:196-201 | an on-screen coordinate divided by the side lies in [0, 1] and scales back to itself |
| ZoneSelection.ScreenToNormalizedExample | src/overlay/zone_selection.rs:220-261 | the drags (100, 200)–(300, 400), both ways, on a 1000 by 1000 screen give (0.1, 0.2, 0.2, 0.2), which scales back to the 200 by 200 rectangle at (100, 200) |
| ZoneSelection.Release | src/overlay/zone_selection.rs:101-113 | a zone is reported exactly when both points are known and the zone is at least 10 by 10 pixels, and then it is the normalised drag |
| ZoneSelection.RenderZoneSelection | src/overlay/zone_selection.rs:26-181 | Escape cancels and changes nothing; a release clears both points; only a release reports a zone, which is always large enough; the finished selection and the existing zones are untouched |
| ZoneSelection.DragCompletes | src/overlay/zone_selection.rs:88-118 | a press, a move and a release report the normalised zone exactly when it is large enough, and leave no drag points behind either way |
| ZoneSelection.ReleaseWithoutStart | src/overlay/zone_selection.rs:101-113 | a release without a recorded start reports nothing |

## Left out

- Drawing and widgets. All egui rendering is left out: the dashboard views, the overlay painting, the selection rectangle, the labels and the view-state flags. Only the list logic and the drag state of the zone-selection overlay are kept.
- File and JSON I/O. Loading and saving profiles and configuration is left out, and so is serde's text format. `Profiles` models only the record of optional fields that serde fills, and the defaults it applies.
- Model download and ONNX sessions (`src/vision/models.rs`). The PaddleOCR engine's inference is a parameter of the pipeline.
- Windows OCR plumbing. `create_software_bitmap`, `run_ocr_sync`, `extract_results`, `WindowsOcr::new` and `available_languages` call into the operating system. The recogniser is a parameter, and failures reach the model as `Err` results of that parameter.
- Image arithmetic of the sensors. The normalised cross-correlation `compute_image_similarity`, `bgra_to_grayscale` and `image::imageops::resize` are parameters. Their results are quantified over, and the model only relies on the similarity clamp into [0, 1] that the source applies.
- The template and result caches of the recognizer. This covers the recognition cache with its time-to-live, `load_screens`, `clear_cache`, `screen_count` and `get_screen`. They depend on the clock or only read the store. Template decoding is a parameter.
- Hash map iteration order. `build_hierarchy` and `recognize` iterate a hash map, so their tie order is unspecified. The model takes the stored screens as a sequence in the order the map yields them, and ties keep that order.
- Unicode. Case mapping is ASCII only, while Rust's `to_lowercase`/`to_uppercase` are Unicode-aware. `text_similarity` divides by the byte length while the distance counts characters; on ASCII the two agree.
- Floating point. `f32` values are reals, so rounding, infinities and NaN are not modelled; the one exception is the detection scale of an empty image (`DetectionDims` reports it as not finite). Casts from float to integer are modelled as saturating truncation.
- `RulesEngine`, `EventEmitter`, `TemplateMatcher`, `OcrEngine`, `Database`, `OverlayManager` and `HotkeyManager` registration are stubs without behaviour. No rule, event or matching semantics are invented for them.
- Timing. `processing_time_ms` and the `Instant` measurements are left out.
- Configuration. Fields of `VisionConfig` other than the backend and the recognition threshold are not modelled. Neither is the `OcrPreprocessing` default: it is passed as a parameter (`defaults`), because its definition is not part of this model.
- The Levenshtein test pair kitten/sitting (distance 3) is not proved as a concrete example. The distance is proved equal to the recurrence and bounded by the longer length, and the similarity examples of the tests are proved.
- Hierarchy.ParentChain: requires that the walk up from the screen ends, which holds when the parent relation has no cycle. The source loops forever on a cycle.
- Vision.ExtractRegion: requires that `width * height * 4` (with the requested, unclamped size) and the start offset `(row * img_width + x) * 4` of the last copied row fit in `u32` (src/vision/mod.rs:465 and 473). In the source that arithmetic panics in a debug build and wraps in a release build; neither is modelled.
- OcrPreprocess.Luma: the promise that a gray pixel keeps its level holds over the reals. In the source's `f32` arithmetic with a truncating cast, the gray pixel (37, 37, 37) becomes 36 (src/vision/ocr_preprocess.rs:98), so the result can be one level short.
- OcrPreprocess.GrayscaleTwice: holds over the reals only. In `f32`, a level of 37 becomes 36 on the second pass, so the source's grayscale conversion is not idempotent.
- OcrPreprocess.SharpenByte: the flat-neighbourhood clause holds over the reals only. In `f32`, a flat value of 1 at strength 0.1 gives 0 (src/vision/ocr_preprocess.rs:141-148).
- OcrPreprocess.SharpenFlat: holds over the reals only. In `f32`, a flat image of value 1 at strength 0.1 becomes 0 inside.
- OcrPreprocess.BilinearFlat: holds over the reals only. In `f32`, four values of 15 at the weights of a ×3 upscale interpolate to 14 (src/vision/ocr_preprocess.rs:197-204).
- OcrPreprocess.UpscalePixelFlat: holds over the reals only. In `f32`, a one-colour source of 15 upscaled ×3 gives 14 at output pixels between the samples (src/vision/ocr_preprocess.rs:175-204).
- OcrPreprocess.UpscaledPixelsFlat: holds over the reals only, for the same `f32` reason as `UpscalePixelFlat`.
- OcrPreprocess.UpscaleFlat: holds over the reals only, for the same `f32` reason, at the level of the whole buffer.
- Tensors.DetectionDims: "the longer side reaches the target" holds over the reals only. In `f32`, a longer side of 29 at target 960 scales to 959 (src/vision/preprocess.rs:100-102), so that side can be one pixel short.
- Tensors.ScaledSide: `side == m ==> n == target` holds over the reals only. In `f32` the same example (29 at target 960) gives 959.
- Recognition.Recognize: requires distinct screen ids, which the hash map keyed by id provides, and a frame whose buffer holds every pixel.
- Tensors.Normalize: requires non-zero deviations, because the source divides by them and a zero would give infinities or NaN, which are not modelled.
- ZoneSelection.ScreenToNormalized: requires a positive screen size, for the same reason.
- Vision.ScaleFactor: requires a positive processed width whenever it differs from the region width; otherwise the source divides by zero.
- Vision.ToFrame: the `u32` addition of the region offset is not wrapped, and the rounding of the factor to `f32` is not modelled.
- Vision.ProcessRegion: preprocesses with the clamped region size rather than the requested one, per the second finding below.
- ScreenOrder.ReorderScreenPriority: writes the corrected priorities rather than the saturating ones, per the first finding below.
- ZoneSelection.RenderZoneSelection: takes the cursor position and the drag events of one frame as an input record instead of reading them from egui.

## Findings

| source | as written | input that shows it | evidently intended | confidence | as-written member | corrected member |
|---|---|---|---|---|---|---|
| src/dashboard/views/screens.rs:424-427 | root k gets priority `100 − 10k` with a saturating subtraction, so every root from index 10 on gets priority 0 | 12 root screens: the roots at positions 10 and 11 both get 0, and the stable sort by descending priority can no longer recover the order the user dragged into | priorities that strictly decrease along the new order | not executed | ScreenOrder.AsWrittenOrderLost | ScreenOrder.CorrectedOrderPersists (priority `max(100, 10(n − 1)) − 10k` for n roots, equal to the written scheme for n ≤ 11) |
| src/vision/mod.rs:347-367 | the region is extracted with the clamped size, but preprocessed and reported with the requested width and height | a 100 by 100 frame with region (50, 0, 100, 10): 2000 bytes are extracted and then upscaled four times as a 100 by 10 image, reading 4000 bytes. With region (50, 0, 100, 100): 20000 bytes are reported as 100 by 100 | preprocess and report the size of the bytes actually extracted | not executed | Vision.AsWrittenReadsPastRegion, Vision.AsWrittenSizeMismatch (on Vision.PreprocessRegionAsWritten) | Vision.PreprocessRegion with Vision.PreprocessRegionMatchesSize, used by Vision.ProcessRegion |
