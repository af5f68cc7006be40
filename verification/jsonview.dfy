/** The JSON viewer a tab switches on when a page finishes loading
    (`BrowserTab.on_load_finished`, `add_json_highlighting`).

    Each injection is a script handed to the page with a completion callback,
    and the callback injects the next script, so the steps run strictly one
    after another. The scripts themselves are not modelled, only which step
    runs when. Reading the two asset files can fail (`open` raises): the
    stylesheet is read before the first step, the library inside the first
    step's callback.
 */
module JsonView {
  import opened Results
  import opened Text

  datatype Step =
    | InjectStyle    // a <style> element holding prism.css
    | InjectLibrary  // the text of prism.js
    | WrapInCode     // the body's text inside <pre><code class="language-json">
    | HighlightAll   // Prism.highlightAll()

  /** The order the callbacks chain the steps in. */
  const Pipeline: seq<Step> := [InjectStyle, InjectLibrary, WrapInCode, HighlightAll]

  /** The availability of the two asset files read on the way. */
  datatype Assets = Assets(styleReadable: bool, libraryReadable: bool)

  /** `on_load_finished`: whether the page's address ends in ".json" — the whole
      address string, query and fragment included. */
  predicate IsJsonAddress(url: string) {
    EndsWith(url, ".json")
  }

  /** Any address ending in ".json" switches the viewer on; the same address
      with a query after it does not, since only the end of the string counts. */
  lemma JsonAddresses(page: string)
    ensures IsJsonAddress(page + ".json")
    ensures !IsJsonAddress(page + ".json?raw=1")
  {
    EndsWithMeansSuffix(page, ".json");
    var q := page + ".json?raw=1";
    assert q[|q| - 1] == '1';
  }

  /** The first script injected after a load, if any. */
  function Begin(url: string, assets: Assets): (first: Option<Step>)
    ensures first.Some? <==> IsJsonAddress(url) && assets.styleReadable
    ensures first.Some? ==> first.value == Pipeline[0]
  {
    if IsJsonAddress(url) && assets.styleReadable then Some(InjectStyle) else None
  }

  /** Where a step sits in `Pipeline`. */
  function Place(s: Step): (k: nat)
    ensures k < |Pipeline| && Pipeline[k] == s
  {
    match s
    case InjectStyle => 0
    case InjectLibrary => 1
    case WrapInCode => 2
    case HighlightAll => 3
  }

  /** The completion callback of `done`: the script it injects next, if any.
      Each callback injects the step one place further along the pipeline;
      the chain ends after the last step, or after the first when prism.js
      cannot be read. */
  function OnScriptDone(done: Step, assets: Assets): (next: Option<Step>)
    ensures next.Some? ==> Place(next.value) == Place(done) + 1
    ensures next.None? <==>
      Place(done) == |Pipeline| - 1 || (Place(done) == 0 && !assets.libraryReadable)
  {
    match done
    case InjectStyle => if assets.libraryReadable then Some(InjectLibrary) else None
    case InjectLibrary => Some(WrapInCode)
    case WrapInCode => Some(HighlightAll)
    case HighlightAll => None
  }

  /** Each callback moves exactly one place along the pipeline, or ends it. */
  lemma CallbacksFollowPipeline(k: nat, assets: Assets)
    requires k < |Pipeline|
    ensures OnScriptDone(Pipeline[k], assets).Some? ==>
      k + 1 < |Pipeline| && OnScriptDone(Pipeline[k], assets).value == Pipeline[k + 1]
    ensures k + 1 < |Pipeline| && (k > 0 || assets.libraryReadable) ==>
      OnScriptDone(Pipeline[k], assets).Some?
  {
  }

  /** The scripts a loaded page receives, in the order they run, obtained by
      following the callbacks until one injects nothing further. */
  method Injections(url: string, assets: Assets) returns (trace: seq<Step>)
    ensures |trace| <= |Pipeline| && trace == Pipeline[..|trace|]
    ensures |trace| > 0 <==> IsJsonAddress(url) && assets.styleReadable
    ensures |trace| == |Pipeline| <==> IsJsonAddress(url) && assets.styleReadable && assets.libraryReadable
    ensures |trace| == 0 || |trace| == 1 || |trace| == |Pipeline|
  {
    trace := [];
    var pending := Begin(url, assets);
    while pending.Some?
      invariant |trace| <= |Pipeline|
      invariant trace == Pipeline[..|trace|]
      invariant pending.Some? ==> |trace| < |Pipeline| && pending.value == Pipeline[|trace|]
      invariant |trace| == 0 ==> (pending.Some? <==> IsJsonAddress(url) && assets.styleReadable)
      invariant |trace| > 0 ==> IsJsonAddress(url) && assets.styleReadable
      invariant |trace| == 1 ==> (pending.Some? <==> assets.libraryReadable)
      invariant |trace| >= 2 ==> assets.libraryReadable && (|trace| < |Pipeline| ==> pending.Some?)
      decreases |Pipeline| - |trace|
    {
      var step := pending.value;
      CallbacksFollowPipeline(|trace|, assets);
      trace := trace + [step];
      pending := OnScriptDone(step, assets);
    }
  }
}
