/**
 * The live-demo embed: the parameters of the StackBlitz and CodeSandbox
 * embed URLs and of the StackBlitz SDK call, and the small state machine of
 * the current provider and the loading and error flags.
 *
 * Query parameters are kept as ordered key/value pairs; their percent
 * encoding, the SDK script, the timer and the DOM are not modelled. Whether
 * the code runs in a browser, and the page origin there, are parameters.
 */
module Sandbox {
  import opened Wrappers
  import opened Sorting

  datatype Theme = Dark | Light
  datatype View = Editor | Preview | Split
  datatype Provider = StackBlitz | CodeSandbox | Auto

  /** The component's props, absent ones already given their defaults. */
  datatype Props = Props(repo: string, theme: Theme, file: Option<string>, view: View, provider: Provider)

  /** The props as written at the use site, any of them possibly absent. */
  datatype GivenProps = GivenProps(repo: string, theme: Option<Theme>, file: Option<string>, view: Option<View>, provider: Option<Provider>)

  /** The destructuring defaults: dark theme, preview view, StackBlitz. */
  function WithDefaults(g: GivenProps): (p: Props)
    ensures p.repo == g.repo && p.file == g.file
  {
    Props(g.repo, g.theme.GetOr(Dark), g.file, g.view.GetOr(Preview), g.provider.GetOr(StackBlitz))
  }

  /** Given props are kept; absent ones take their defaults. */
  lemma WithDefaultsSpec(g: GivenProps)
    ensures g.theme.Some? ==> WithDefaults(g).theme == g.theme.value
    ensures g.theme.None? ==> WithDefaults(g).theme == Dark
    ensures g.view.Some? ==> WithDefaults(g).view == g.view.value
    ensures g.view.None? ==> WithDefaults(g).view == Preview
    ensures g.provider.Some? ==> WithDefaults(g).provider == g.provider.value
    ensures g.provider.None? ==> WithDefaults(g).provider == StackBlitz
  {
  }

  function ThemeName(t: Theme): string {
    match t
    case Dark => "dark"
    case Light => "light"
  }

  function ViewName(v: View): string {
    match v
    case Editor => "editor"
    case Preview => "preview"
    case Split => "split"
  }

  /** StackBlitz calls the split view "both". */
  function StackBlitzView(v: View): string {
    if v == Split then "both" else ViewName(v)
  }

  /** The view names StackBlitz receives are its own three. */
  lemma StackBlitzViewSpec(v: View)
    ensures StackBlitzView(v) in {"editor", "preview", "both"}
    ensures v != Split ==> StackBlitzView(v) == ViewName(v)
    ensures StackBlitzView(v) == "both" <==> v == Split
  {
  }

  /** `file` is used only when present and non-empty, as `||` and `?:` treat strings. */
  predicate HasFile(p: Props) {
    p.file.Some? && |p.file.value| > 0
  }

  const StackBlitzDefaultFiles: string := "src/App.tsx,src/App.jsx,src/main.tsx,src/main.jsx,src/index.tsx,src/index.jsx"
  const CodeSandboxDefaultModule: string := "/src/App.js"

  function FileOr(p: Props, fallback: string): string {
    if HasFile(p) then p.file.value else fallback
  }

  function Flag(b: bool): string {
    if b then "1" else "0"
  }

  // ---- embed URL ----

  datatype Param = Param(key: string, value: string)

  /** An embed URL: the fixed address of the provider, the repository, and the query parameters in order. */
  datatype EmbedUrl = EmbedUrl(base: string, repo: string, params: seq<Param>)

  const StackBlitzBase: string := "https://stackblitz.com/github/"
  const CodeSandboxBase: string := "https://codesandbox.io/embed/github/"

  /** Whether the code runs in a browser, and the page origin if it does. */
  datatype Runtime = Browser(origin: string) | ServerSide

  function StackBlitzParams(p: Props, rt: Runtime): seq<Param> {
    [ Param("embed", "1"),
      Param("file", FileOr(p, StackBlitzDefaultFiles)),
      Param("hideNavigation", "1"),
      Param("hideDevTools", Flag(p.view == Preview)),
      Param("theme", ThemeName(p.theme)),
      Param("view", StackBlitzView(p.view)) ]
    + (if rt.Browser? then [Param("origin", rt.origin)] else [])
  }

  function CodeSandboxParams(p: Props): seq<Param> {
    [ Param("fontsize", "14"),
      Param("hidenavigation", "1"),
      Param("theme", ThemeName(p.theme)),
      Param("view", ViewName(p.view)),
      Param("module", FileOr(p, CodeSandboxDefaultModule)),
      Param("hidedevtools", Flag(p.view == Preview)),
      Param("codemirror", "1") ]
  }

  /** `buildSandboxUrl`: StackBlitz only when asked for by name; any other provider, `auto` included, gets CodeSandbox. */
  function BuildSandboxUrl(p: Props, providerType: Provider, rt: Runtime): (u: EmbedUrl)
    ensures u.repo == p.repo
  {
    if providerType == StackBlitz then EmbedUrl(StackBlitzBase, p.repo, StackBlitzParams(p, rt))
    else EmbedUrl(CodeSandboxBase, p.repo, CodeSandboxParams(p))
  }

  function Keys(ps: seq<Param>): (ks: seq<string>)
    ensures |ks| == |ps|
    ensures forall j :: 0 <= j < |ps| ==> ks[j] == ps[j].key
    decreases |ps|
  {
    if |ps| == 0 then [] else [ps[0].key] + Keys(ps[1..])
  }

  /** The value of the first parameter named `key`. */
  function Lookup(ps: seq<Param>, key: string): Option<string>
    decreases |ps|
  {
    if |ps| == 0 then None
    else if ps[0].key == key then Some(ps[0].value)
    else Lookup(ps[1..], key)
  }

  /** With no key repeated, each parameter is found under its own key. */
  lemma {:induction false} LookupDistinct(ps: seq<Param>, i: nat)
    requires Distinct(Keys(ps)) && i < |ps|
    ensures Lookup(ps, ps[i].key) == Some(ps[i].value)
    decreases |ps|
  {
    if i > 0 {
      assert Keys(ps)[0] != Keys(ps)[i];
      assert Distinct(Keys(ps[1..])) by {
        forall a, b | 0 <= a < b < |ps| - 1
          ensures Keys(ps[1..])[a] != Keys(ps[1..])[b]
        {
          assert Keys(ps)[a + 1] != Keys(ps)[b + 1];
        }
      }
      LookupDistinct(ps[1..], i - 1);
    }
  }

  /** A key no parameter has is not found. */
  lemma {:induction false} LookupAbsent(ps: seq<Param>, key: string)
    requires key !in Keys(ps)
    ensures Lookup(ps, key) == None
    decreases |ps|
  {
    if |ps| > 0 {
      assert Keys(ps)[0] == ps[0].key;
      assert Keys(ps[1..]) == Keys(ps)[1..];
      LookupAbsent(ps[1..], key);
    }
  }

  /**
   * What each provider's URL says: the view (split renamed for StackBlitz),
   * developer tools hidden exactly in the preview view, the requested file or
   * the provider's default, and the page origin only from a browser.
   */
  lemma StackBlitzUrlSpec(p: Props, rt: Runtime)
    ensures BuildSandboxUrl(p, StackBlitz, rt).base == StackBlitzBase
    ensures Distinct(Keys(BuildSandboxUrl(p, StackBlitz, rt).params))
    ensures Lookup(BuildSandboxUrl(p, StackBlitz, rt).params, "view") == Some(StackBlitzView(p.view))
    ensures Lookup(BuildSandboxUrl(p, StackBlitz, rt).params, "hideDevTools") == Some(if p.view == Preview then "1" else "0")
    ensures Lookup(BuildSandboxUrl(p, StackBlitz, rt).params, "file") == Some(if HasFile(p) then p.file.value else StackBlitzDefaultFiles)
    ensures Lookup(BuildSandboxUrl(p, StackBlitz, rt).params, "theme") == Some(ThemeName(p.theme))
    ensures Lookup(BuildSandboxUrl(p, StackBlitz, rt).params, "origin").Some? <==> rt.Browser?
    ensures rt.Browser? ==> Lookup(BuildSandboxUrl(p, StackBlitz, rt).params, "origin") == Some(rt.origin)
  {
    var ps := StackBlitzParams(p, rt);
    StackBlitzKeys(p, rt);
    if rt.Browser? {
      LookupDistinct(ps, 6);
    } else {
      LookupAbsent(ps, "origin");
    }
    LookupDistinct(ps, 1);
    LookupDistinct(ps, 3);
    LookupDistinct(ps, 4);
    LookupDistinct(ps, 5);
  }

  lemma StackBlitzKeys(p: Props, rt: Runtime)
    ensures Distinct(Keys(StackBlitzParams(p, rt)))
    ensures rt.Browser? ==> |StackBlitzParams(p, rt)| == 7 && StackBlitzParams(p, rt)[6] == Param("origin", rt.origin)
    ensures rt.ServerSide? ==> "origin" !in Keys(StackBlitzParams(p, rt))
  {
    var ps := StackBlitzParams(p, rt);
    forall i, j | 0 <= i < j < |ps|
      ensures ps[i].key != ps[j].key
    {
      assert |ps[i].key| != |ps[j].key| || ps[i].key[0] != ps[j].key[0];
    }
    if rt.ServerSide? {
      forall k | 0 <= k < |ps|
        ensures ps[k].key != "origin"
      {
        assert ps[k].key[0] != 'o';
      }
    }
  }

  lemma CodeSandboxUrlSpec(p: Props, providerType: Provider, rt: Runtime)
    requires providerType != StackBlitz
    ensures BuildSandboxUrl(p, providerType, rt) == BuildSandboxUrl(p, CodeSandbox, ServerSide)
    ensures BuildSandboxUrl(p, providerType, rt).base == CodeSandboxBase
    ensures Distinct(Keys(BuildSandboxUrl(p, providerType, rt).params))
    ensures Lookup(BuildSandboxUrl(p, providerType, rt).params, "view") == Some(ViewName(p.view))
    ensures Lookup(BuildSandboxUrl(p, providerType, rt).params, "hidedevtools") == Some(if p.view == Preview then "1" else "0")
    ensures Lookup(BuildSandboxUrl(p, providerType, rt).params, "module") == Some(if HasFile(p) then p.file.value else CodeSandboxDefaultModule)
    ensures Lookup(BuildSandboxUrl(p, providerType, rt).params, "theme") == Some(ThemeName(p.theme))
    ensures Lookup(BuildSandboxUrl(p, providerType, rt).params, "origin") == None
  {
    CodeSandboxParamsSpec(p);
  }

  lemma CodeSandboxParamsSpec(p: Props)
    ensures Distinct(Keys(CodeSandboxParams(p)))
    ensures Lookup(CodeSandboxParams(p), "view") == Some(ViewName(p.view))
    ensures Lookup(CodeSandboxParams(p), "hidedevtools") == Some(Flag(p.view == Preview))
    ensures Lookup(CodeSandboxParams(p), "module") == Some(FileOr(p, CodeSandboxDefaultModule))
    ensures Lookup(CodeSandboxParams(p), "theme") == Some(ThemeName(p.theme))
    ensures Lookup(CodeSandboxParams(p), "origin") == None
  {
    var ps := CodeSandboxParams(p);
    CodeSandboxKeys(p);
    LookupDistinct(ps, 2);
    LookupDistinct(ps, 3);
    LookupDistinct(ps, 4);
    LookupDistinct(ps, 5);
    LookupAbsent(ps, "origin");
  }

  lemma CodeSandboxKeys(p: Props)
    ensures Distinct(Keys(CodeSandboxParams(p)))
    ensures "origin" !in Keys(CodeSandboxParams(p))
  {
    var ps := CodeSandboxParams(p);
    forall i, j | 0 <= i < j < |ps|
      ensures ps[i].key != ps[j].key
    {
      assert |ps[i].key| != |ps[j].key|;
    }
    forall k | 0 <= k < |ps|
      ensures ps[k].key != "origin"
    {
      assert ps[k].key[0] != 'o';
    }
  }

  // ---- SDK options ----

  /** The options given to the SDK's `embedGithubProject`. */
  datatype EmbedOptions = EmbedOptions(
    openFile: Option<seq<string>>, view: string, theme: string,
    hideNavigation: bool, hideDevTools: bool, forceEmbedLayout: bool, clickToLoad: bool)

  /** The options `initStackBlitz` builds. */
  function StackBlitzOptions(p: Props): (o: EmbedOptions)
    ensures o.hideNavigation && o.forceEmbedLayout && !o.clickToLoad
  {
    EmbedOptions(
      if HasFile(p) then Some([p.file.value]) else None,
      StackBlitzView(p.view), ThemeName(p.theme), true, p.view == Preview, true, false)
  }

  /**
   * A given file is opened on its own and none is named otherwise; and the
   * SDK is asked for the same view, theme and developer tools setting as the
   * StackBlitz URL carries.
   */
  lemma StackBlitzOptionsSpec(p: Props, rt: Runtime)
    ensures StackBlitzOptions(p).openFile.Some? <==> HasFile(p)
    ensures HasFile(p) ==> StackBlitzOptions(p).openFile == Some([p.file.value])
    ensures Some(StackBlitzOptions(p).view) == Lookup(BuildSandboxUrl(p, StackBlitz, rt).params, "view")
    ensures Some(StackBlitzOptions(p).theme) == Lookup(BuildSandboxUrl(p, StackBlitz, rt).params, "theme")
    ensures Some(Flag(StackBlitzOptions(p).hideDevTools)) == Lookup(BuildSandboxUrl(p, StackBlitz, rt).params, "hideDevTools")
    ensures StackBlitzOptions(p).hideDevTools <==> p.view == Preview
  {
    StackBlitzUrlSpec(p, rt);
  }

  // ---- provider, loading and error ----

  datatype SandboxState = SandboxState(current: Provider, loading: bool, error: bool)

  /** The state on mount: the requested provider, loading, no error. */
  function Initial(p: Props): (s: SandboxState)
    ensures s.current == p.provider && LoadingShown(s)
  {
    SandboxState(p.provider, true, false)
  }

  /** The loading overlay is drawn while loading and no error is shown. */
  predicate LoadingShown(s: SandboxState) {
    s.loading && !s.error
  }

  /** The SDK container is drawn for StackBlitz; every other provider gets the iframe. */
  predicate ShowsIframe(s: SandboxState) {
    s.current != StackBlitz
  }

  /** `handleIframeError`: a StackBlitz embed requested as `auto` falls back to CodeSandbox; anything else fails. */
  function HandleIframeError(p: Props, s: SandboxState): (t: SandboxState)
    ensures !t.loading ==> t.error
  {
    if s.current == StackBlitz && p.provider == Auto then SandboxState(CodeSandbox, true, false)
    else s.(loading := false, error := true)
  }

  /**
   * An iframe error either starts the fallback, loading CodeSandbox, or
   * shows the error with the provider unchanged; the fallback is taken at
   * most once, and an error from the iframe itself is always shown.
   */
  lemma HandleIframeErrorSpec(p: Props, s: SandboxState)
    ensures LoadingShown(HandleIframeError(p, s)) <==> s.current == StackBlitz && p.provider == Auto
    ensures LoadingShown(HandleIframeError(p, s)) ==> HandleIframeError(p, s).current == CodeSandbox
    ensures !LoadingShown(HandleIframeError(p, s)) ==> HandleIframeError(p, s).current == s.current
    ensures HandleIframeError(p, HandleIframeError(p, s)).error
    ensures ShowsIframe(s) ==> HandleIframeError(p, s).error
  {
  }

  /** `switchProvider`: only StackBlitz and CodeSandbox can be chosen; loading starts afresh. */
  function SwitchProvider(s: SandboxState, newProvider: Provider): (t: SandboxState)
    requires newProvider != Auto
  {
    SandboxState(newProvider, true, false)
  }

  /** `refreshSandbox`: loading starts afresh with the same provider. */
  function Refresh(s: SandboxState): (t: SandboxState) {
    s.(loading := true, error := false)
  }

  /**
   * Both buttons clear a shown error and bring the loading overlay back;
   * refresh keeps the provider, so after an error that caused no fallback a
   * refresh is as good as one before the error.
   */
  lemma RetryClearsError(s: SandboxState, newProvider: Provider, p: Props)
    requires newProvider != Auto
    ensures LoadingShown(SwitchProvider(s, newProvider)) && SwitchProvider(s, newProvider).current == newProvider
    ensures LoadingShown(Refresh(s)) && Refresh(s).current == s.current
    ensures Refresh(Refresh(s)) == Refresh(s)
    ensures !(s.current == StackBlitz && p.provider == Auto) ==> Refresh(HandleIframeError(p, s)) == Refresh(s)
  {
  }

  /** The SDK call's outcome: loaded, or failed with the error shown. */
  function EmbedSettled(s: SandboxState, succeeded: bool): (t: SandboxState)
    ensures !LoadingShown(t)
    ensures t.current == s.current
  {
    if succeeded then s.(loading := false) else s.(loading := false, error := true)
  }

  /** `handleIframeLoad` as written: loading ends only when the current provider is literally CodeSandbox. */
  function HandleIframeLoadAsWritten(s: SandboxState): (t: SandboxState)
    ensures t.current == s.current
  {
    if s.current == CodeSandbox then s.(loading := false, error := false) else s
  }

  /**
   * With `provider` set to `auto` the iframe is drawn from the start, but
   * its load event leaves the loading overlay over it for good.
   */
  lemma AutoLoadKeepsOverlay(repo: string, theme: Theme, file: Option<string>, view: View)
    ensures ShowsIframe(Initial(Props(repo, theme, file, view, Auto)))
    ensures LoadingShown(HandleIframeLoadAsWritten(Initial(Props(repo, theme, file, view, Auto))))
  {
  }

  /** `handleIframeLoad` applied to whichever provider the iframe is drawn for. */
  function HandleIframeLoad(s: SandboxState): (t: SandboxState)
    ensures t.current == s.current
  {
    if ShowsIframe(s) then s.(loading := false, error := false) else s
  }

  /** Once the iframe loads, neither the loading overlay nor an error is shown; the SDK container ignores the event. */
  lemma HandleIframeLoadSpec(s: SandboxState)
    ensures ShowsIframe(s) ==> !LoadingShown(HandleIframeLoad(s)) && !HandleIframeLoad(s).error
    ensures !ShowsIframe(s) ==> HandleIframeLoad(s) == s
    ensures s.current != Auto ==> HandleIframeLoad(s) == HandleIframeLoadAsWritten(s)
  {
  }
}
