/** The generation step of the web page (app_rdv.py:26-36 and 51-66): the
    period inputs, the choice of salespeople, the selection of the loaded
    groups and one report per selected group. */
module App {
  import opened Wrappers
  import opened Text
  import opened Seqs
  import opened Loader
  import opened Report

  /** `COMMERCIAUX_CIBLES` (app_rdv.py:12), the options of the multiselect. */
  const Targets := ["Sandra", "Ophélie", "Arthur", "Grégoire", "Tania"]

  /** `any(cible.lower() in com.lower() for cible in selected_commerciaux)`:
      case-insensitive substring, with no accent folding. */
  function AnyTargetIn(key: string, selected: seq<string>): (r: bool)
    ensures r <==> exists i :: 0 <= i < |selected| && Contains(LowerAll(key), LowerAll(selected[i]))
  {
    if selected == [] then false
    else
      var rest := AnyTargetIn(key, selected[1..]);
      assert forall i :: 1 <= i < |selected| ==> selected[i] == selected[1..][i - 1];
      Contains(LowerAll(key), LowerAll(selected[0])) || rest
  }

  /** `rdv_data_filtered`: the groups whose key a selected salesperson
      matches, in the order of the load. */
  function Select(groups: seq<Group>, selected: seq<string>): seq<Group>
  {
    Filter(groups, (g: Group) => AnyTargetIn(g.key, selected))
  }

  /** A group is kept exactly when a selected salesperson matches its key;
      kept groups are unchanged and keep their order. */
  lemma SelectKeeps(groups: seq<Group>, selected: seq<string>)
    ensures var kept := Select(groups, selected);
            && IsSubsequence(kept, groups)
            && forall g :: g in kept <==> g in groups && AnyTargetIn(g.key, selected)
  {
    var kept := Select(groups, selected);
    forall g | g in groups && AnyTargetIn(g.key, selected) ensures g in kept {
      var i :| 0 <= i < |groups| && groups[i] == g;
    }
    forall g | g in kept ensures g in groups && AnyTargetIn(g.key, selected) {
      var k :| 0 <= k < |kept| && kept[k] == g;
    }
  }

  /** A key that starts with a salesperson's name is selected by it. */
  lemma NameThenMoreSelected(name: string, more: string)
    ensures AnyTargetIn(name + more, [name])
  {
    assert LowerAll(name) <= LowerAll(name + more) by {
      assert forall i :: 0 <= i < |name| ==> (name + more)[i] == name[i];
    }
  }

  /** A key the selection matches contains every character of the lowered
      name, so a name with a letter the key lacks never selects it. */
  lemma MissingLetterNotSelected(key: string, name: string, j: int)
    requires 0 <= j < |name|
    requires Lower(name[j]) !in LowerAll(key)
    ensures !AnyTargetIn(key, [name])
  {
    ContainsKeepsChars(LowerAll(key), LowerAll(name));
    assert LowerAll(name)[j] == Lower(name[j]);
  }

  /** The match ignores case but not accents: "Ophélie" selects the key
      "Ophélie Martin" but neither "OPHELIE MARTIN" nor "Ophelie Martin". */
  lemma AccentedNameSelected(name: string, key: string)
    requires name == "Oph" + "é" + "lie" && key == name + " Martin"
    ensures AnyTargetIn(key, [name])
  {
    NameThenMoreSelected(name, " Martin");
  }

  lemma UnaccentedKeyNotSelected(name: string, key: string)
    requires name == "Oph" + "é" + "lie"
    requires key == "OPHELIE MARTIN" || key == "Ophelie Martin"
    ensures !AnyTargetIn(key, [name])
  {
    assert name[3] == 'é';
    NoAccentLetter(key);
    MissingLetterNotSelected(key, name, 3);
  }

  /** An ASCII key has no 'é' once lowered. */
  lemma NoAccentLetter(key: string)
    requires forall i :: 0 <= i < |key| ==> IsAscii(key[i])
    ensures 'é' !in LowerAll(key)
  {
  }

  /** `lower()` of an ASCII text, character by character. */
  lemma LowersTo(s: string, t: string)
    requires |t| == |s|
    requires forall i :: 0 <= i < |s| ==> IsAscii(s[i]) && t[i] == Lower(s[i])
    ensures LowerAll(s) == t
  {
  }

  /** "Sandra" selects "SANDRA" and "sandra b.". */
  lemma SelectionIgnoresCase(key: string, name: string)
    requires name == "Sandra"
    requires key == "SANDRA" || key == "sandra b."
    ensures AnyTargetIn(key, [name])
  {
    LowersTo(name, "sandra");
    if key == "SANDRA" {
      LowersTo(key, "sandra");
    } else {
      LowersTo(key, "sandra b.");
    }
  }

  /** The results of a sequence of steps run in order until one fails: the
      list of values when every step succeeds, else the first failure. */
  function Sequenced<T(==), E(==)>(rs: seq<Result<T, E>>): (r: Result<seq<T>, E>)
    ensures r.Ok? <==> forall i :: 0 <= i < |rs| ==> rs[i].Ok?
    ensures r.Ok? ==> |r.value| == |rs| && forall i :: 0 <= i < |rs| ==> rs[i] == Ok(r.value[i])
    ensures r.Err? ==> exists i :: 0 <= i < |rs| && rs[i] == Err(r.error) && forall j :: 0 <= j < i ==> rs[j].Ok?
  {
    if rs == [] then Ok([])
    else
      assert forall i :: 1 <= i < |rs| ==> rs[i] == rs[1..][i - 1];
      match rs[0]
      case Err(e) => Err(e)
      case Ok(v) =>
        match Sequenced(rs[1..])
        case Err(e) =>
          var i :| 0 <= i < |rs[1..]| && rs[1..][i] == Err(e) && forall j :: 0 <= j < i ==> rs[1..][j].Ok?;
          assert rs[i + 1] == Err(e);
          Err(e)
        case Ok(vs) => Ok([v] + vs)
  }

  /** Whatever the steps, the first failure is the only possible error:
      Sequenced is determined by its contract. */
  lemma SequencedFirstFailure<T, E>(rs: seq<Result<T, E>>, k: int)
    requires 0 <= k < |rs| && rs[k].Err? && forall j :: 0 <= j < k ==> rs[j].Ok?
    ensures Sequenced(rs) == Err(rs[k].error)
  {
    var r := Sequenced(rs);
    var i :| 0 <= i < |rs| && rs[i] == Err(r.error) && forall j :: 0 <= j < i ==> rs[j].Ok?;
    assert i == k;
  }

  /** The report of each group, in group order. */
  function GroupReports(groups: seq<Group>, dayFrom: int, dayTo: int, month: int, year: int,
                        outputDir: string, logo: bool, monthNames: seq<string>)
    : (rs: seq<Result<Document, ReportError>>)
    requires 1 <= month <= 12 && 1 <= year <= 9999 && |monthNames| == 12
    ensures |rs| == |groups|
  {
    seq(|groups|, i requires 0 <= i < |groups| =>
      ReportSpec(groups[i].frame, groups[i].key, dayFrom, dayTo, month, year, outputDir, logo, monthNames))
  }

  /** One report per group, in group order; the first report that fails
      stops the page. */
  function ReportsSpec(groups: seq<Group>, dayFrom: int, dayTo: int, month: int, year: int,
                       outputDir: string, logo: bool, monthNames: seq<string>)
    : Result<seq<Document>, ReportError>
    requires 1 <= month <= 12 && 1 <= year <= 9999 && |monthNames| == 12
  {
    Sequenced(GroupReports(groups, dayFrom, dayTo, month, year, outputDir, logo, monthNames))
  }

  /** `for commercial, df in rdv_data_filtered.items(): creer_rapport_rdv(...)`. */
  method GenerateReports(groups: seq<Group>, dayFrom: int, dayTo: int, month: int, year: int,
                         outputDir: string, logo: bool, monthNames: seq<string>)
    returns (r: Result<seq<Document>, ReportError>)
    requires 1 <= month <= 12 && 1 <= year <= 9999 && |monthNames| == 12
    ensures r == ReportsSpec(groups, dayFrom, dayTo, month, year, outputDir, logo, monthNames)
  {
    ghost var rs := GroupReports(groups, dayFrom, dayTo, month, year, outputDir, logo, monthNames);
    var docs: seq<Document> := [];
    for k := 0 to |groups|
      invariant Sequenced(rs[..k]) == Ok(docs)
    {
      var d := CreateReport(groups[k].frame, groups[k].key, dayFrom, dayTo, month, year, outputDir, logo, monthNames);
      GroupReportAt(groups, k, dayFrom, dayTo, month, year, outputDir, logo, monthNames);
      if d.Err? {
        SequencedStops(rs, k, docs);
        return Err(d.error);
      }
      SequencedStep(rs, k, docs, d.value);
      docs := docs + [d.value];
    }
    assert rs[..|groups|] == rs;
    return Ok(docs);
  }

  lemma GroupReportAt(groups: seq<Group>, k: int, dayFrom: int, dayTo: int, month: int, year: int,
                      outputDir: string, logo: bool, monthNames: seq<string>)
    requires 1 <= month <= 12 && 1 <= year <= 9999 && |monthNames| == 12
    requires 0 <= k < |groups|
    ensures GroupReports(groups, dayFrom, dayTo, month, year, outputDir, logo, monthNames)[k]
              == ReportSpec(groups[k].frame, groups[k].key, dayFrom, dayTo, month, year, outputDir, logo, monthNames)
  {
  }

  /** One more successful step extends the list of values. */
  lemma SequencedStep<T, E>(rs: seq<Result<T, E>>, k: int, vs: seq<T>, v: T)
    requires 0 <= k < |rs| && Sequenced(rs[..k]) == Ok(vs) && rs[k] == Ok(v)
    ensures Sequenced(rs[..k + 1]) == Ok(vs + [v])
  {
    var longer := rs[..k + 1];
    assert forall i :: 0 <= i < k ==> longer[i] == rs[..k][i];
    var all := Sequenced(longer);
    assert all.value == vs + [v];
  }

  /** A failing step after successful ones is the failure of the whole. */
  lemma SequencedStops<T, E>(rs: seq<Result<T, E>>, k: int, vs: seq<T>)
    requires 0 <= k < |rs| && Sequenced(rs[..k]) == Ok(vs) && rs[k].Err?
    ensures Sequenced(rs) == Err(rs[k].error)
  {
    assert forall j :: 0 <= j < k ==> rs[j] == rs[..k][j];
    SequencedFirstFailure(rs, k);
  }

  /** What the page ends with after the button. */
  datatype Outcome =
    | Idle                          // no file, no salesperson chosen, or no click
    | LoadFailed(loadError: LoadError)
    | NothingFound                  // "Aucun RDV trouvé pour les commerciaux sélectionnés."
    | RenderFailed(reportError: ReportError)
    | Generated(reports: seq<Document>)

  /** The inputs the widgets allow (app_rdv.py:16-34). */
  predicate ValidInputs(selected: seq<string>, month: int, year: int, dayFrom: int, dayTo: int)
  {
    && (forall i :: 0 <= i < |selected| ==> selected[i] in Targets)
    && 1 <= month <= 12 && 2022 <= year <= 2029
    && 1 <= dayFrom <= 31 && 1 <= dayTo <= 31
  }

  /** The page's reaction to the button (app_rdv.py:36-66). */
  function RunSpec(uploaded: bool, selected: seq<string>, clicked: bool, sheet: Sheet,
                   month: int, year: int, dayFrom: int, dayTo: int,
                   outputDir: string, logo: bool, monthNames: seq<string>): Outcome
    requires ValidInputs(selected, month, year, dayFrom, dayTo) && |monthNames| == 12
  {
    if !uploaded || selected == [] || !clicked then Idle
    else match Load(sheet, dayFrom, dayTo, month, year)
      case Err(e) => LoadFailed(e)
      case Ok(groups) =>
        var kept := Select(groups, selected);
        if kept == [] then NothingFound
        else match ReportsSpec(kept, dayFrom, dayTo, month, year, outputDir, logo, monthNames)
          case Err(e) => RenderFailed(e)
          case Ok(docs) => Generated(docs)
  }

  /** The page: the guard, the load, the selection and the report loop.
      `logo` says that a logo was uploaded. */
  method Run(uploaded: bool, selected: seq<string>, clicked: bool, sheet: Sheet,
             month: int, year: int, dayFrom: int, dayTo: int,
             outputDir: string, logo: bool, monthNames: seq<string>)
    returns (o: Outcome)
    requires ValidInputs(selected, month, year, dayFrom, dayTo) && |monthNames| == 12
    ensures o == RunSpec(uploaded, selected, clicked, sheet, month, year, dayFrom, dayTo, outputDir, logo, monthNames)
  {
    if !uploaded || selected == [] || !clicked {
      return Idle;
    }
    var loaded := Load(sheet, dayFrom, dayTo, month, year);
    if loaded.Err? {
      return LoadFailed(loaded.error);
    }
    var kept := Select(loaded.value, selected);
    if kept == [] {
      return NothingFound;
    }
    var docs := GenerateReports(kept, dayFrom, dayTo, month, year, outputDir, logo, monthNames);
    if docs.Err? {
      return RenderFailed(docs.error);
    }
    return Generated(docs.value);
  }

  /** Nothing is generated without a file, a chosen salesperson and a
      click. */
  lemma RunNeedsInputs(uploaded: bool, selected: seq<string>, clicked: bool, sheet: Sheet,
                       month: int, year: int, dayFrom: int, dayTo: int,
                       outputDir: string, logo: bool, monthNames: seq<string>)
    requires ValidInputs(selected, month, year, dayFrom, dayTo) && |monthNames| == 12
    ensures RunSpec(uploaded, selected, clicked, sheet, month, year, dayFrom, dayTo, outputDir, logo, monthNames).Idle?
            <==> !uploaded || selected == [] || !clicked
  {
  }

  /** The warning appears exactly when the load succeeds and keeps no group
      the selection matches. */
  lemma RunNothingFound(uploaded: bool, selected: seq<string>, sheet: Sheet,
                        month: int, year: int, dayFrom: int, dayTo: int,
                        outputDir: string, logo: bool, monthNames: seq<string>)
    requires ValidInputs(selected, month, year, dayFrom, dayTo) && |monthNames| == 12
    requires uploaded && selected != []
    ensures RunSpec(uploaded, selected, true, sheet, month, year, dayFrom, dayTo, outputDir, logo, monthNames).NothingFound?
            <==> && Load(sheet, dayFrom, dayTo, month, year).Ok?
                 && forall g :: g in Load(sheet, dayFrom, dayTo, month, year).value ==> !AnyTargetIn(g.key, selected)
  {
    var loaded := Load(sheet, dayFrom, dayTo, month, year);
    if loaded.Ok? {
      SelectKeeps(loaded.value, selected);
      var kept := Select(loaded.value, selected);
      if kept != [] {
        assert kept[0] in kept;
      }
    }
  }

  /** When reports are generated there is exactly one per selected group,
      in the selection's order, each the report of that group's frame under
      its key. */
  lemma RunOneReportPerGroup(uploaded: bool, selected: seq<string>, clicked: bool, sheet: Sheet,
                             month: int, year: int, dayFrom: int, dayTo: int,
                             outputDir: string, logo: bool, monthNames: seq<string>)
    requires ValidInputs(selected, month, year, dayFrom, dayTo) && |monthNames| == 12
    requires RunSpec(uploaded, selected, clicked, sheet, month, year, dayFrom, dayTo, outputDir, logo, monthNames).Generated?
    ensures Load(sheet, dayFrom, dayTo, month, year).Ok?
    ensures var kept := Select(Load(sheet, dayFrom, dayTo, month, year).value, selected);
            var docs := RunSpec(uploaded, selected, clicked, sheet, month, year, dayFrom, dayTo,
                                outputDir, logo, monthNames).reports;
            && kept != []
            && |docs| == |kept|
            && forall i :: 0 <= i < |kept| ==>
                 ReportSpec(kept[i].frame, kept[i].key, dayFrom, dayTo, month, year, outputDir, logo, monthNames)
                   == Ok(docs[i])
  {
  }
}
