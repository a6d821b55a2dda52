/** Course packs: the checks on a manifest, the step table built from the step files, and the steps in
    authored order. */
module Courses {
  import opened Wrappers

  datatype Module = Module(id: string, steps: seq<string>)
  datatype Manifest = Manifest(id: string, prerequisites: seq<string>, modules: seq<Module>)

  datatype Lang = De | En
  datatype Meta = Meta(tasks: seq<string>, requirements: seq<string>)
  datatype StepFile = StepFile(stepId: string, lang: Lang, meta: Meta)

  datatype Step = Step(id: string, courseId: string, meta: Meta)
  datatype Course = Course(manifest: Manifest, steps: map<string, Step>)

  // ---------------------------------------------------------------- manifest validation

  predicate IsAlnum(c: char) {
    'a' <= c <= 'z' || 'A' <= c <= 'Z' || '0' <= c <= '9'
  }

  /** Letters, digits, '.', '_' and '-', starting with a letter or a digit. */
  predicate ValidId(s: string) {
    s != "" && IsAlnum(s[0]) && forall i :: 0 <= i < |s| ==> IsAlnum(s[i]) || s[i] == '.' || s[i] == '_' || s[i] == '-'
  }

  lemma IdSyntax()
    ensures ValidId("m2-02_mmio.GPIO") && ValidId("7seg")
    ensures !ValidId("") && !ValidId("-a") && !ValidId("_a") && !ValidId(".a") && !ValidId("a/b") && !ValidId("a b")
  {
    assert "a/b"[1] == '/' && "a b"[1] == ' ';
  }

  /** All step ids, module by module. */
  function AllSteps(modules: seq<Module>): seq<string> {
    if modules == [] then [] else AllSteps(modules[..|modules| - 1]) + modules[|modules| - 1].steps
  }

  function Elements(ids: seq<string>): set<string> {
    set i | 0 <= i < |ids| :: ids[i]
  }

  predicate NoDuplicates(ids: seq<string>) {
    forall i, j :: 0 <= i < j < |ids| ==> ids[i] != ids[j]
  }

  ghost predicate ValidModules(modules: seq<Module>) {
    && (forall i :: 0 <= i < |modules| ==> ValidId(modules[i].id) && modules[i].steps != [])
    && (forall i, j :: 0 <= i < j < |modules| ==> modules[i].id != modules[j].id)
    && (forall i :: 0 <= i < |AllSteps(modules)| ==> ValidId(AllSteps(modules)[i]))
    && NoDuplicates(AllSteps(modules))
  }

  ghost predicate ValidManifest(m: Manifest) {
    ValidId(m.id) && m.modules != [] && ValidModules(m.modules)
  }

  lemma AllStepsSnoc(modules: seq<Module>, j: nat)
    requires j < |modules|
    ensures AllSteps(modules[..j + 1]) == AllSteps(modules[..j]) + modules[j].steps
  {
    assert modules[..j + 1][..j] == modules[..j];
  }

  lemma {:induction false} AllStepsPrefix(modules: seq<Module>, j: nat)
    requires j <= |modules|
    ensures |AllSteps(modules[..j])| <= |AllSteps(modules)|
    ensures AllSteps(modules[..j]) == AllSteps(modules)[..|AllSteps(modules[..j])|]
    decreases |modules| - j
  {
    if j == |modules| {
      assert modules[..j] == modules;
    } else {
      AllStepsPrefix(modules, j + 1);
      AllStepsSnoc(modules, j);
    }
  }

  lemma PrefixOfValid(modules: seq<Module>, j: nat)
    requires ValidModules(modules) && j <= |modules|
    ensures ValidModules(modules[..j])
  {
    AllStepsPrefix(modules, j);
  }

  /** One module's step list: every id must be valid and new. */
  method CheckSteps(steps: seq<string>, seen: set<string>) returns (ok: bool, seenAfter: set<string>)
    ensures ok <==> (forall i :: 0 <= i < |steps| ==> ValidId(steps[i]) && steps[i] !in seen) && NoDuplicates(steps)
    ensures ok ==> seenAfter == seen + Elements(steps)
  {
    seenAfter := seen;
    for i := 0 to |steps|
      invariant seenAfter == seen + set k | 0 <= k < i :: steps[k]
      invariant forall k :: 0 <= k < i ==> ValidId(steps[k]) && steps[k] !in seen
      invariant NoDuplicates(steps[..i])
    {
      if !ValidId(steps[i]) {
        return false, seenAfter;
      }
      if steps[i] in seenAfter {
        return false, seenAfter;
      }
      seenAfter := seenAfter + {steps[i]};
    }
    ok := true;
  }

  lemma JoinNoDuplicates(a: seq<string>, b: seq<string>)
    ensures NoDuplicates(a + b) <==> NoDuplicates(a) && NoDuplicates(b) && forall i :: 0 <= i < |b| ==>
      b[i] !in Elements(a)
  {
    var c := a + b;
    if NoDuplicates(c) {
      assert forall i :: 0 <= i < |a| ==> c[i] == a[i];
      assert forall i :: 0 <= i < |b| ==> c[|a| + i] == b[i];
    }
  }

  lemma JoinElements(a: seq<string>, b: seq<string>)
    ensures Elements(a + b) == Elements(a) + Elements(b)
  {
    var c := a + b;
    assert forall i :: 0 <= i < |a| ==> c[i] == a[i];
    assert forall i :: 0 <= i < |b| ==> c[|a| + i] == b[i];
  }

  /** A manifest is accepted exactly if its ids are well-formed and no module or step occurs twice. */
  method ValidateManifest(raw: Manifest) returns (accepted: bool)
    ensures accepted <==> ValidManifest(raw)
  {
    if !ValidId(raw.id) || |raw.modules| == 0 {
      return false;
    }
    var seenModules: set<string>, seenSteps: set<string> := {}, {};
    for j := 0 to |raw.modules|
      invariant ValidModules(raw.modules[..j])
      invariant seenModules == set k | 0 <= k < j :: raw.modules[k].id
      invariant seenSteps == Elements(AllSteps(raw.modules[..j]))
    {
      var m := raw.modules[j];
      ghost var before := AllSteps(raw.modules[..j]);
      AllStepsSnoc(raw.modules, j);
      JoinElements(before, m.steps);
      var ok, seen := CheckSteps(m.steps, seenSteps);
      if !ValidId(m.id) || m.id in seenModules || |m.steps| == 0 || !ok {
        RejectModule(raw.modules, j);
        return false;
      }
      AcceptModule(raw.modules, j);
      seenModules := seenModules + {m.id};
      seenSteps := seen;
    }
    assert raw.modules[..|raw.modules|] == raw.modules;
    accepted := true;
  }

  ghost predicate ModuleOk(modules: seq<Module>, j: nat)
    requires j < |modules|
  {
    var m := modules[j];
    && ValidId(m.id) && m.steps != [] && (forall k :: 0 <= k < j ==> modules[k].id != m.id)
    && (forall i :: 0 <= i < |m.steps| ==> ValidId(m.steps[i]) && m.steps[i] !in Elements(AllSteps(modules[..j])))
    && NoDuplicates(m.steps)
  }

  lemma AcceptModule(modules: seq<Module>, j: nat)
    requires j < |modules| && ValidModules(modules[..j]) && ModuleOk(modules, j)
    ensures ValidModules(modules[..j + 1])
  {
    AllStepsSnoc(modules, j);
    JoinNoDuplicates(AllSteps(modules[..j]), modules[j].steps);
  }

  lemma RejectModule(modules: seq<Module>, j: nat)
    requires j < |modules| && !ModuleOk(modules, j)
    ensures !ValidModules(modules)
  {
    if ValidModules(modules) {
      ModuleOkIfValid(modules, j);
    }
  }

  lemma ModuleOkIfValid(modules: seq<Module>, j: nat)
    requires j < |modules| && ValidModules(modules)
    ensures ModuleOk(modules, j)
  {
    PrefixOfValid(modules, j + 1);
    AllStepsSnoc(modules, j);
    LastModuleOk(AllSteps(modules[..j]), modules[j].steps);
  }

  lemma LastModuleOk(before: seq<string>, steps: seq<string>)
    requires NoDuplicates(before + steps) && forall i :: 0 <= i < |before + steps| ==> ValidId((before + steps)[i])
    ensures NoDuplicates(steps)
    ensures forall i :: 0 <= i < |steps| ==> ValidId(steps[i]) && steps[i] !in Elements(before)
  {
    JoinNoDuplicates(before, steps);
    assert forall i :: 0 <= i < |steps| ==> (before + steps)[|before| + i] == steps[i];
  }

  // ---------------------------------------------------------------- the step table

  /** The last file of a step in one language; later files replace earlier ones. */
  function LastVariant(files: seq<StepFile>, stepId: string, lang: Lang): Option<Meta> {
    if files == [] then None
    else
      var f := files[|files| - 1];
      if f.stepId == stepId && f.lang == lang then Some(f.meta) else LastVariant(files[..|files| - 1], stepId, lang)
  }

  /** The English variant, or the German one if there is no English one. */
  function Variant(files: seq<StepFile>, stepId: string): Option<Meta> {
    if LastVariant(files, stepId, En).Some? then LastVariant(files, stepId, En) else LastVariant(files, stepId, De)
  }

  lemma LastVariantSnoc(files: seq<StepFile>, j: nat, stepId: string, lang: Lang)
    requires j < |files|
    ensures LastVariant(files[..j + 1], stepId, lang) ==
      if files[j].stepId == stepId &&
        files[j].lang == lang then Some(files[j].meta) else LastVariant(files[..j], stepId, lang)
  {
    assert files[..j + 1][..j] == files[..j];
  }

  /** The step table holds exactly the listed steps that have a file, each under its own id. */
  ghost predicate IsStepTable(steps: map<string, Step>, m: Manifest, files: seq<StepFile>) {
    && (forall id :: id in steps <==> id in Elements(AllSteps(m.modules)) && Variant(files, id).Some?)
    && (forall id <- steps :: steps[id] == Step(id, m.id, Variant(files, id).value))
  }

  /** File j is the last one of a step in a language. */
  ghost predicate LastFile(files: seq<StepFile>, stepId: string, lang: Lang, j: int) {
    && 0 <= j < |files| && files[j].stepId == stepId && files[j].lang == lang
    && forall k :: j < k < |files| ==> !(files[k].stepId == stepId && files[k].lang == lang)
  }

  lemma {:induction false} LastFileCounts(files: seq<StepFile>, stepId: string, lang: Lang)
    ensures forall j :: LastFile(files, stepId, lang, j) ==> LastVariant(files, stepId, lang) == Some(files[j].meta)
    ensures LastVariant(files, stepId, lang).None? <==>
      forall k :: 0 <= k < |files| ==> !(files[k].stepId == stepId && files[k].lang == lang)
  {
    if files != [] {
      var init := files[..|files| - 1];
      LastFileCounts(init, stepId, lang);
      assert files == init + [files[|files| - 1]];
      forall j | LastFile(files, stepId, lang, j) && j < |init|
        ensures LastFile(init, stepId, lang, j)
      {}
    }
  }

  /** A step has the contents of its last English file, or of its last German one if no file is English. */
  lemma EnglishComesFirst(files: seq<StepFile>, stepId: string, j: nat)
    ensures LastFile(files, stepId, En, j) ==> Variant(files, stepId) == Some(files[j].meta)
    ensures LastFile(files, stepId, De, j) && (forall f <- files :: f.stepId == stepId ==> f.lang == De) ==>
      Variant(files, stepId) == Some(files[j].meta)
    ensures Variant(files, stepId).None? <==> forall f <- files :: f.stepId != stepId
  {
    LastFileCounts(files, stepId, En);
    LastFileCounts(files, stepId, De);
  }

  datatype Variants = Variants(en: Option<Meta>, de: Option<Meta>)

  /** Collect the variants of the listed steps, then let German stand in for English where needed. */
  method LoadSteps(m: Manifest, files: seq<StepFile>) returns (steps: map<string, Step>)
    ensures IsStepTable(steps, m, files)
  {
    var listed := Elements(AllSteps(m.modules));
    var found: map<string, Variants> := map[];
    for j := 0 to |files|
      invariant forall id :: id in found <==> id in listed && Variant(files[..j], id).Some?
      invariant forall id <- found ::
        found[id] == Variants(LastVariant(files[..j], id, En), LastVariant(files[..j], id, De))
    {
      var f := files[j];
      forall id
        ensures LastVariant(files[..j + 1], id, En) == if f.stepId == id &&
          f.lang == En then Some(f.meta) else LastVariant(files[..j], id, En)
        ensures LastVariant(files[..j + 1], id, De) == if f.stepId == id &&
          f.lang == De then Some(f.meta) else LastVariant(files[..j], id, De)
      {
        LastVariantSnoc(files, j, id, En);
        LastVariantSnoc(files, j, id, De);
      }
      if f.stepId in listed {
        var v := if f.stepId in found then found[f.stepId] else Variants(None, None);
        found := found[f.stepId := if f.lang == En then v.(en := Some(f.meta)) else v.(de := Some(f.meta))];
      }
    }
    assert files[..|files|] == files;
    steps := map id | id in found :: Step(id, m.id,
      if found[id].en.Some? then found[id].en.value else found[id].de.value);
  }

  // ---------------------------------------------------------------- authored order

  function StepsFor(ids: seq<string>, steps: map<string, Step>): seq<Step> {
    if ids == [] then []
    else
      var last := ids[|ids| - 1];
      StepsFor(ids[..|ids| - 1], steps) + if last in steps then [steps[last]] else []
  }

  function OrderedSteps(c: Course): seq<Step> {
    StepsFor(AllSteps(c.manifest.modules), c.steps)
  }

  lemma StepsForSnoc(before: seq<string>, ids: seq<string>, i: nat, steps: map<string, Step>)
    requires i < |ids|
    ensures StepsFor(before + ids[..i + 1], steps) ==
      StepsFor(before + ids[..i], steps) + if ids[i] in steps then [steps[ids[i]]] else []
  {
    assert (before + ids[..i + 1])[..|before| + i] == before + ids[..i];
  }

  method CollectOrderedSteps(c: Course) returns (out: seq<Step>)
    ensures out == OrderedSteps(c)
  {
    out := [];
    var modules := c.manifest.modules;
    for j := 0 to |modules|
      invariant out == StepsFor(AllSteps(modules[..j]), c.steps)
    {
      AllStepsSnoc(modules, j);
      var ids := modules[j].steps;
      ghost var before := AllSteps(modules[..j]);
      assert before + ids[..0] == before;
      for i := 0 to |ids|
        invariant out == StepsFor(before + ids[..i], c.steps)
      {
        StepsForSnoc(before, ids, i, c.steps);
        if ids[i] in c.steps {
          out := out + [c.steps[ids[i]]];
        }
      }
      assert before + ids[..|ids|] == before + ids;
    }
    assert modules[..|modules|] == modules;
  }

  /** A course as the loader builds it from an accepted manifest. */
  ghost predicate Loaded(c: Course) {
    && ValidManifest(c.manifest)
    && c.steps.Keys <= Elements(AllSteps(c.manifest.modules))
    && forall id <- c.steps :: c.steps[id].id == id && c.steps[id].courseId == c.manifest.id
  }

  lemma LoaderLoads(m: Manifest, files: seq<StepFile>, steps: map<string, Step>)
    requires ValidManifest(m) && IsStepTable(steps, m, files)
    ensures Loaded(Course(m, steps))
  {}

  ghost predicate DistinctIds(steps: seq<Step>) {
    forall i, j :: 0 <= i < j < |steps| ==> steps[i].id != steps[j].id
  }

  ghost predicate FromTable(out: seq<Step>, ids: set<string>, steps: map<string, Step>) {
    forall i :: 0 <= i < |out| ==> out[i].id in ids && out[i].id in steps && steps[out[i].id] == out[i]
  }

  lemma {:induction false} StepsForOnce(ids: seq<string>, steps: map<string, Step>)
    requires NoDuplicates(ids) && forall id <- steps :: steps[id].id == id
    ensures DistinctIds(StepsFor(ids, steps)) && FromTable(StepsFor(ids, steps), Elements(ids), steps)
    ensures forall id :: id in Elements(ids) && id in steps ==> steps[id] in StepsFor(ids, steps)
  {
    if ids != [] {
      var init, last := ids[..|ids| - 1], ids[|ids| - 1];
      StepsForOnce(init, steps);
      assert last !in Elements(init);
      assert Elements(ids) == Elements(init) + {last} by {
        assert ids == init + [last];
        JoinElements(init, [last]);
        assert Elements([last]) == {last};
      }
      var before := StepsFor(init, steps);
      if last in steps {
        assert StepsFor(ids, steps) == before + [steps[last]];
      } else {
        assert StepsFor(ids, steps) == before;
      }
    }
  }

  /** The authored order enumerates every loaded step, each exactly once. */
  lemma OrderedStepsOnce(c: Course)
    requires Loaded(c)
    ensures DistinctIds(OrderedSteps(c))
    ensures forall s :: s in OrderedSteps(c) <==> s.id in c.steps && c.steps[s.id] == s
  {
    var ids := AllSteps(c.manifest.modules);
    StepsForOnce(ids, c.steps);
    var out := OrderedSteps(c);
    forall s
      ensures s in out <==> s.id in c.steps && c.steps[s.id] == s
    {
      if s in out {
        var i :| 0 <= i < |out| && out[i] == s;
        assert out[i].id in Elements(ids);
      } else if s.id in c.steps {
        assert s.id in Elements(ids);
      }
    }
  }

  /** The first place of an id, or -1. */
  function IndexOf(steps: seq<Step>, id: string): (i: int)
    ensures -1 <= i < |steps|
    ensures 0 <= i ==> steps[i].id == id && forall k :: 0 <= k < i ==> steps[k].id != id
    ensures i < 0 ==> forall k :: 0 <= k < |steps| ==> steps[k].id != id
  {
    if steps == [] then -1
    else if steps[0].id == id then 0
    else
      var i := IndexOf(steps[1..], id);
      if i < 0 then -1 else i + 1
  }

  /** Of two listed steps that are loaded, the one listed first comes first. */
  lemma {:induction false} ListOrder(ids: seq<string>, steps: map<string, Step>, p: nat, q: nat)
    returns (a: nat, b: nat)
    requires p < q < |ids| && ids[p] in steps && ids[q] in steps
    ensures a < b < |StepsFor(ids, steps)|
    ensures StepsFor(ids, steps)[a] == steps[ids[p]] && StepsFor(ids, steps)[b] == steps[ids[q]]
  {
    var init := ids[..|ids| - 1];
    if q < |init| {
      a, b := ListOrder(init, steps, p, q);
    } else {
      a := PlaceOf(init, steps, p);
      b := |StepsFor(init, steps)|;
    }
  }

  lemma {:induction false} PlaceOf(ids: seq<string>, steps: map<string, Step>, p: nat) returns (a: nat)
    requires p < |ids| && ids[p] in steps
    ensures a < |StepsFor(ids, steps)| && StepsFor(ids, steps)[a] == steps[ids[p]]
  {
    var init := ids[..|ids| - 1];
    if p < |init| {
      a := PlaceOf(init, steps, p);
    } else {
      a := |StepsFor(init, steps)|;
    }
  }

  /** Entry i of module j among all the entries. */
  lemma EntryAt(modules: seq<Module>, j: nat, i: nat) returns (k: nat)
    requires j < |modules| && i < |modules[j].steps|
    ensures k == |AllSteps(modules[..j])| + i < |AllSteps(modules[..j + 1])| <= |AllSteps(modules)|
    ensures AllSteps(modules)[k] == modules[j].steps[i]
  {
    k := |AllSteps(modules[..j])| + i;
    AllStepsSnoc(modules, j);
    AllStepsPrefix(modules, j + 1);
  }

  /** The steps are enumerated module by module, and within a module as they are listed there. */
  lemma AuthoredOrder(c: Course, j: nat, i: nat, j': nat, i': nat)
    requires Loaded(c) && j < |c.manifest.modules| && j' < |c.manifest.modules|
    requires i < |c.manifest.modules[j].steps| && i' < |c.manifest.modules[j'].steps|
    requires c.manifest.modules[j].steps[i] in c.steps && c.manifest.modules[j'].steps[i'] in c.steps
    requires j < j' || (j == j' && i < i')
    ensures 0 <= IndexOf(OrderedSteps(c), c.manifest.modules[j].steps[i])
              < IndexOf(OrderedSteps(c), c.manifest.modules[j'].steps[i'])
  {
    var modules := c.manifest.modules;
    var p := EntryAt(modules, j, i);
    var q := EntryAt(modules, j', i');
    if j < j' {
      AllStepsPrefix(modules[..j'], j + 1);
      assert modules[..j'][..j + 1] == modules[..j + 1];
    }
    var a, b := ListOrder(AllSteps(modules), c.steps, p, q);
    OrderedStepsOnce(c);
    assert IndexOf(OrderedSteps(c), OrderedSteps(c)[a].id) == a && IndexOf(OrderedSteps(c), OrderedSteps(c)[b].id) == b;
  }

  function AdjacentStep(c: Course, stepId: string, delta: int): Option<Step> {
    var steps := OrderedSteps(c);
    var i := IndexOf(steps, stepId);
    if i < 0 then None
    else if 0 <= i + delta < |steps| then Some(steps[i + delta])
    else None
  }

  lemma AdjacentAt(c: Course, i: nat, delta: int)
    requires Loaded(c) && i < |OrderedSteps(c)|
    ensures AdjacentStep(c, OrderedSteps(c)[i].id, delta) ==
      if 0 <= i + delta < |OrderedSteps(c)| then Some(OrderedSteps(c)[i + delta]) else None
  {
    OrderedStepsOnce(c);
    assert IndexOf(OrderedSteps(c), OrderedSteps(c)[i].id) == i;
  }

  /** Stepping forward and then back returns to the same step, and the other way round. */
  lemma NextThenPrevious(c: Course, s: Step, delta: int)
    requires Loaded(c) && s in OrderedSteps(c) && (delta == 1 || delta == -1)
    ensures AdjacentStep(c, s.id, delta).Some? ==>
      AdjacentStep(c, AdjacentStep(c, s.id, delta).value.id, -delta) == Some(s)
  {
    var i :| 0 <= i < |OrderedSteps(c)| && OrderedSteps(c)[i] == s;
    AdjacentAt(c, i, delta);
    if 0 <= i + delta < |OrderedSteps(c)| {
      AdjacentAt(c, i + delta, -delta);
    }
  }
}
