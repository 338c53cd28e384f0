/**
 The bundle-object variant of the plugin (rollup-plugin-gen-html.cjs.js):
 HTML modules are captured during `transform`, and `generateBundle`
 hash-renames the script and style artifacts, builds the ordered reference
 list and writes one HTML file per captured source, or one from a template.
 */
module GenHtmlCjs {
  import opened Common
  import opened NodePath
  import opened JsString
  import opened JsObject
  import opened Document
  import opened Host

  /** The `hash` option: falsy, `true`, or any other truthy value used as the tag. */
  datatype HashOption = NoHash | ContentHash | FixedTag(tag: Name)

  /** A bundle entry: chunks carry `code`, assets carry `source`. */
  datatype Artifact = Artifact(fileName: RawPath, code: Option<string>, source: Option<Payload>)

  /** The recognised options; an unset path option is the empty path "". */
  datatype Options = Options(
    isHtml: RawPath -> bool,           // createFilter(include || ['**/*.html'], exclude)
    template: RawPath,
    output: RawPath,
    hash: HashOption,
    replaceToMinScripts: bool,
    insertCssRef: bool,                // defaults to true
    title: string,                     // "" when unset
    cwd: RawPath,                      // "" means process.cwd()
    replacements: seq<(string, string)>)   // `replaces`: the entries in insertion order

  /** An HTML module captured by `transform`. */
  datatype Captured = Captured(id: RawPath, code: string)

  /** The per-instance state: the `html` buffer and the `hashedFiles` registry. */
  datatype Plugin = Plugin(html: seq<Captured>, hashedFiles: map<string, Name>)

  /** One module as the host hands it to `transform`. */
  datatype Module = Module(code: string, id: RawPath)

  function Init(): Plugin
  {
    Plugin([], map[])
  }

  /** The directory relative option paths are resolved against. */
  function BaseDir(opts: Options, env: Env): AbsPath
  {
    Resolve(env.processCwd, opts.cwd)
  }

  // ---------------------------------------------------------------------------
  // Build hooks

  /** `buildStart`: empties the capture buffer; the registry survives rebuilds. */
  function BuildStart(p: Plugin): (r: Plugin)
    ensures r.html == []
    ensures r.hashedFiles == p.hashedFiles
  {
    p.(html := [])
  }

  /**
   `transform`: a module the filter accepts is captured and its code replaced
   by ""; any other module is left to the host (no replacement).
   */
  function Transform(opts: Options, p: Plugin, m: Module): (r: (Plugin, Option<string>))
    ensures r.0.hashedFiles == p.hashedFiles
    ensures opts.isHtml(m.id) ==> r.0.html == p.html + [Captured(m.id, m.code)] && r.1 == Some("")
    ensures !opts.isHtml(m.id) ==> r.0 == p && r.1 == None
  {
    if opts.isHtml(m.id) then (p.(html := p.html + [Captured(m.id, m.code)]), Some(""))
    else (p, None)
  }

  /** The state after `transform` has seen the modules in order. */
  function TransformAll(opts: Options, p: Plugin, mods: seq<Module>): Plugin
    decreases |mods|
  {
    if |mods| == 0 then p else TransformAll(opts, Transform(opts, p, mods[0]).0, mods[1..])
  }

  /** The modules the filter accepts, as captured sources, in order. */
  function HtmlModules(opts: Options, mods: seq<Module>): seq<Captured>
    decreases |mods|
  {
    if |mods| == 0 then []
    else if opts.isHtml(mods[0].id) then [Captured(mods[0].id, mods[0].code)] + HtmlModules(opts, mods[1..])
    else HtmlModules(opts, mods[1..])
  }

  lemma {:induction false} TransformAllAppends(opts: Options, p: Plugin, mods: seq<Module>)
    ensures TransformAll(opts, p, mods) == Plugin(p.html + HtmlModules(opts, mods), p.hashedFiles)
    decreases |mods|
  {
    if |mods| > 0 {
      var p1 := Transform(opts, p, mods[0]).0;
      TransformAllAppends(opts, p1, mods[1..]);
      if opts.isHtml(mods[0].id) {
        assert p.html + [Captured(mods[0].id, mods[0].code)] + HtmlModules(opts, mods[1..])
            == p.html + HtmlModules(opts, mods);
      }
    }
  }

  /**
   A build pass captures exactly the accepted modules of that pass, in the
   order they were transformed; nothing from an earlier pass remains.
   */
  lemma BuildPassCaptures(opts: Options, p: Plugin, mods: seq<Module>)
    ensures TransformAll(opts, BuildStart(p), mods).html == HtmlModules(opts, mods)
    ensures TransformAll(opts, BuildStart(p), mods).hashedFiles == p.hashedFiles
  {
    TransformAllAppends(opts, BuildStart(p), mods);
  }

  // ---------------------------------------------------------------------------
  // Hashing and the registry

  /** `item.code || item.source` under JavaScript truthiness. */
  function Content(item: Artifact): (c: Option<Payload>)
    ensures c.Some? && c.value.Text? ==> c.value.text != ""
  {
    if item.code.Some? && item.code.value != "" then Some(Text(item.code.value))
    else match item.source
      case Some(Text(s)) => if s == "" then None else Some(Text(s))
      case Some(Binary(b)) => Some(Binary(b))
      case None => None
  }

  /**
   `_getBundleItemHash`: no tag without content; otherwise the md5 of the
   content for `hash: true`, or the option's own value as a literal tag.
   */
  function BundleItemHash(hash: HashOption, md5: Payload -> Name, item: Artifact): (r: Option<Name>)
    ensures Content(item).None? || hash.NoHash? ==> r.None?
    ensures Content(item).Some? && hash.ContentHash? ==> r == Some(md5(Content(item).value))
    ensures Content(item).Some? && hash.FixedTag? ==> r == Some(hash.tag)
  {
    match Content(item)
    case None => None
    case Some(c) =>
      match hash
      case NoHash => None
      case ContentHash => Some(md5(c))
      case FixedTag(t) => Some(t)
  }

  /**
   `_renameWithHash` as written. The new name keeps only the base name of
   `fileName`. When `dir/fileName` exists, line 82 recomputes that same old
   path, deletes it, and the rename that follows then fails for want of a
   source; otherwise nothing is touched and the new name is returned.
   */
  function RenameWithHash(dir: AbsPath, fileName: RawPath, tag: Name, fs: FileSystem): (r: Outcome<Name>)
    ensures r.Done? <==> Resolve(dir, fileName) !in fs
    ensures r.Done? ==> r.fs == fs && r.value == Infix(Basename(fileName), tag)
    ensures r.Thrown? ==> r.fs == fs - {Resolve(dir, fileName)} && r.error == NoSuchFile(Resolve(dir, fileName))
  {
    var newFileName := Infix(Basename(fileName), tag);
    var filePath := Resolve(dir, fileName);
    if filePath in fs then
      var newFilePath := Resolve(dir, fileName);
      var fs1 := if newFilePath in fs then fs - {newFilePath} else fs;
      Thrown(fs1, NoSuchFile(filePath))
    else
      Done(fs, newFileName)
  }

  /** Where a registry entry's file lives: the bare name is looked up in process.cwd(). */
  function StalePath(env: Env, name: Name): AbsPath
  {
    env.processCwd + [name]
  }

  /** `existsSync(name)` and `unlinkSync(name)` resolve the bare name against process.cwd(). */
  lemma StalePathResolves(env: Env, name: Name)
    ensures Resolve(env.processCwd, Segment(name)) == StalePath(env, name)
  {
    NormalizeNames(env.processCwd, [name]);
  }

  /** Only removals: every remaining file was there before, with the same contents. */
  predicate Shrinks(before: FileSystem, after: FileSystem)
  {
    forall p :: p in after ==> p in before && after[p] == before[p]
  }

  /** `_removeLastHashedFile(key)`: deletes the file last recorded for the key, if it exists. */
  function RemoveLastHashedFile(env: Env, reg: map<string, Name>, key: string, fs: FileSystem): (r: FileSystem)
    ensures key in reg ==> StalePath(env, reg[key]) !in r
    ensures Shrinks(fs, r)
    ensures forall p :: p in fs && !(key in reg && p == StalePath(env, reg[key])) ==> p in r
  {
    if key in reg && StalePath(env, reg[key]) in fs then fs - {StalePath(env, reg[key])} else fs
  }

  /** Lines 122-123: the lower-cased extension is `.js`, or `.css` when style refs are on. */
  predicate IsRefCandidate(fileName: RawPath, insertCssRef: bool)
  {
    var ext := LowerAscii(Extname(Basename(fileName)));
    ext == ".js" || (insertCssRef && ext == ".css")
  }

  /** The tag an artifact is renamed with, if any. */
  function TagFor(opts: Options, env: Env, item: Artifact): Option<Name>
  {
    if IsRefCandidate(item.fileName, opts.insertCssRef) then BundleItemHash(opts.hash, env.md5, item)
    else None
  }

  /** An artifact after finalization: renamed to `name.tag.ext` when it has a tag. */
  function Renamed(opts: Options, env: Env, item: Artifact): (r: Artifact)
    ensures r.code == item.code && r.source == item.source
    ensures !IsRefCandidate(item.fileName, opts.insertCssRef) || Content(item).None? || opts.hash.NoHash? ==> r == item
    ensures IsRefCandidate(item.fileName, opts.insertCssRef) && Content(item).Some? && opts.hash.ContentHash? ==>
              r.fileName == Segment(Infix(Basename(item.fileName), env.md5(Content(item).value)))
    ensures IsRefCandidate(item.fileName, opts.insertCssRef) && Content(item).Some? && opts.hash.FixedTag? ==>
              r.fileName == Segment(Infix(Basename(item.fileName), opts.hash.tag))
  {
    match TagFor(opts, env, item)
    case None => item
    case Some(t) => item.(fileName := Segment(Infix(Basename(item.fileName), t)))
  }

  /** Renaming keeps the extension, so an artifact stays a reference candidate or not. */
  lemma RenamedKeepsCandidacy(opts: Options, env: Env, item: Artifact)
    ensures IsRefCandidate(Renamed(opts, env, item).fileName, opts.insertCssRef)
            == IsRefCandidate(item.fileName, opts.insertCssRef)
  {
    var t := TagFor(opts, env, item);
    if t.Some? {
      var base := Basename(item.fileName);
      assert Extname(base) != "" by {
        assert |LowerAscii(Extname(base))| >= 3;
      }
      InfixParse(base, t.value);
    }
  }

  /**
   Selection lower-cases the extension (line 122) but `_insertRef` compares
   it as written (line 26): `APP.JS` is referenced, and as a stylesheet.
   */
  lemma UpperCaseScriptLinkedAsStylesheet()
    ensures IsRefCandidate(RawPath(false, ["APP.JS"]), false)
    ensures RefNode(["out", "APP.JS"], ["out", "index.html"]).Stylesheet?
  {
    assert LastDot("APP.JS") == 3 by {
      assert "APP.JS"[..5] == "APP.J" && "APP.J"[..4] == "APP.";
    }
    assert Extname("APP.JS") == ".JS";
    assert LowerAscii(".JS") == ".js";
  }

  /** The file names of the entries that `keep` accepts, in order. */
  function NamesWhere(entries: seq<(string, Artifact)>, keep: RawPath -> bool): seq<RawPath>
    decreases |entries|
  {
    if |entries| == 0 then []
    else (if keep(entries[0].1.fileName) then [entries[0].1.fileName] else []) + NamesWhere(entries[1..], keep)
  }

  /** A name is selected exactly when some accepted entry carries it. */
  lemma {:induction false} NamesWhereMembers(entries: seq<(string, Artifact)>, keep: RawPath -> bool, f: RawPath)
    ensures f in NamesWhere(entries, keep) <==>
              exists i :: 0 <= i < |entries| && keep(entries[i].1.fileName) && entries[i].1.fileName == f
    decreases |entries|
  {
    if |entries| > 0 {
      var rest := entries[1..];
      NamesWhereMembers(rest, keep, f);
      if f in NamesWhere(rest, keep) {
        var i :| 0 <= i < |rest| && keep(rest[i].1.fileName) && rest[i].1.fileName == f;
        assert entries[i + 1] == rest[i];
      }
      if exists i :: 0 <= i < |entries| && keep(entries[i].1.fileName) && entries[i].1.fileName == f {
        var i :| 0 <= i < |entries| && keep(entries[i].1.fileName) && entries[i].1.fileName == f;
        if i > 0 {
          assert rest[i - 1] == entries[i];
        }
      }
    }
  }

  /** The reference list: file names of the candidate artifacts, in enumeration order. */
  function RefNames(entries: seq<(string, Artifact)>, insertCssRef: bool): seq<RawPath>
  {
    NamesWhere(entries, n => IsRefCandidate(n, insertCssRef))
  }

  /**
   A file name is on the reference list exactly when some entry is a
   candidate with that name: the list skips the other artifacts and adds nothing.
   */
  lemma RefNamesMembers(entries: seq<(string, Artifact)>, insertCssRef: bool, f: RawPath)
    ensures f in RefNames(entries, insertCssRef) <==>
              exists i :: 0 <= i < |entries| && IsRefCandidate(entries[i].1.fileName, insertCssRef)
                          && entries[i].1.fileName == f
  {
    NamesWhereMembers(entries, n => IsRefCandidate(n, insertCssRef), f);
  }

  // ---------------------------------------------------------------------------
  // The artifact loop of generateBundle (lines 119-130)

  /**
   What the loop decides about one bundle entry: whether it is a reference
   candidate and the tag it gets. Both depend on the artifact alone (its
   extension and its content), never on the disk or the registry, so they
   are taken before the loop; the loop threads the registry and the disk.
   */
  datatype Plan = Plan(key: string, item: Artifact, candidate: bool, tag: Option<Name>)

  function PlanFor(opts: Options, env: Env, key: string, item: Artifact): Plan
  {
    Plan(key, item, IsRefCandidate(item.fileName, opts.insertCssRef), TagFor(opts, env, item))
  }

  /** The decisions for the entries, in the same order. */
  function PlanAll(opts: Options, env: Env, entries: seq<(string, Artifact)>): (r: seq<Plan>)
    ensures |r| == |entries|
    ensures forall i :: 0 <= i < |entries| ==> r[i] == PlanFor(opts, env, entries[i].0, entries[i].1)
  {
    seq(|entries|, i requires 0 <= i < |entries| => PlanFor(opts, env, entries[i].0, entries[i].1))
  }

  /** The plan renames its artifact: a candidate with a tag. */
  predicate Hashes(p: Plan)
  {
    p.candidate && p.tag.Some?
  }

  /** `${name}.${hash}${ext}` for the planned artifact. */
  function NewName(p: Plan): Name
    requires Hashes(p)
  {
    Infix(Basename(p.item.fileName), p.tag.value)
  }

  /** The artifact as the loop leaves it. */
  function Applied(p: Plan): Artifact
  {
    if Hashes(p) then p.item.(fileName := Segment(NewName(p))) else p.item
  }

  /** What the loop pushes onto `refFiles` for the plan. */
  function RefOf(p: Plan): Option<RawPath>
  {
    if p.candidate then Some(Applied(p).fileName) else None
  }

  /** The registry holds for `k` exactly what `reg` held. */
  predicate Keeps(h: map<string, Name>, reg: map<string, Name>, k: string)
  {
    (k in h <==> k in reg) && (k in reg ==> h[k] == reg[k])
  }

  datatype Step = Step(hashedFiles: map<string, Name>, item: Artifact, ref: Option<RawPath>)

  /**
   One iteration: clean the key's stale file, then, for a candidate, rename
   it when it has a tag, record the new name and push its file name. The
   rename throws exactly when the artifact's file exists at that point.
   */
  function ProcessOne(env: Env, reg: map<string, Name>, dir: AbsPath, fs: FileSystem, p: Plan): (r: Outcome<Step>)
    ensures Shrinks(fs, r.fs)
    ensures p.key in reg ==> StalePath(env, reg[p.key]) !in r.fs
    ensures r.Thrown? <==> Hashes(p) && Resolve(dir, p.item.fileName) in RemoveLastHashedFile(env, reg, p.key, fs)
    ensures r.Thrown? ==> r.error == NoSuchFile(Resolve(dir, p.item.fileName))
    ensures r.Done? ==> r.value.item == Applied(p) && r.value.ref == RefOf(p)
    ensures r.Done? && Hashes(p) ==> r.value.hashedFiles == reg[p.key := NewName(p)]
    ensures r.Done? && !Hashes(p) ==> r.value.hashedFiles == reg
  {
    var fs1 := RemoveLastHashedFile(env, reg, p.key, fs);
    if !p.candidate then Done(fs1, Step(reg, p.item, None))
    else
      match p.tag
      case None => Done(fs1, Step(reg, p.item, Some(p.item.fileName)))
      case Some(tag) =>
        match RenameWithHash(dir, p.item.fileName, tag, fs1)
        case Thrown(fs2, e) => Thrown(fs2, e)
        case Done(fs2, name) =>
          var renamed := p.item.(fileName := Segment(name));
          Done(fs2, Step(reg[p.key := name], renamed, Some(renamed.fileName)))
  }

  datatype Processed = Processed(hashedFiles: map<string, Name>, entries: seq<(string, Artifact)>, refFiles: seq<RawPath>)

  function OptionToSeq<T>(o: Option<T>): seq<T>
  {
    if o.Some? then [o.value] else []
  }

  /** Every planned entry in the form the loop leaves it, keys and order unchanged. */
  function AppliedAll(plans: seq<Plan>): (r: seq<(string, Artifact)>)
    decreases |plans|
  {
    if |plans| == 0 then [] else [(plans[0].key, Applied(plans[0]))] + AppliedAll(plans[1..])
  }

  /** The references the plans push, in order. */
  function PlanRefs(plans: seq<Plan>): seq<RawPath>
    decreases |plans|
  {
    if |plans| == 0 then [] else OptionToSeq(RefOf(plans[0])) + PlanRefs(plans[1..])
  }

  /**
   The loop over the bundle in enumeration order. The disk only loses files;
   on success every entry is left as its plan says and the reference list
   holds what the plans push, in order.
   */
  function ProcessAll(env: Env, reg: map<string, Name>, dir: AbsPath, fs: FileSystem, plans: seq<Plan>): (r: Outcome<Processed>)
    ensures Shrinks(fs, r.fs)
    ensures r.Done? ==> r.value.entries == AppliedAll(plans)
    ensures r.Done? ==> r.value.refFiles == PlanRefs(plans)
    decreases |plans|
  {
    if |plans| == 0 then Done(fs, Processed(reg, [], []))
    else
      match ProcessOne(env, reg, dir, fs, plans[0])
      case Thrown(fs1, e) => Thrown(fs1, e)
      case Done(fs1, st) =>
        match ProcessAll(env, st.hashedFiles, dir, fs1, plans[1..])
        case Thrown(fs2, e) => Thrown(fs2, e)
        case Done(fs2, rest) =>
          assert Shrinks(fs, fs2) by {
            assert Shrinks(fs, fs1) && Shrinks(fs1, fs2);
          }
          Done(fs2, Processed(rest.hashedFiles, [(plans[0].key, st.item)] + rest.entries, OptionToSeq(st.ref) + rest.refFiles))
  }

  /** A completed loop is a completed first step followed by a completed loop over the rest. */
  lemma ProcessAllUnfold(env: Env, reg: map<string, Name>, dir: AbsPath, fs: FileSystem, plans: seq<Plan>)
    requires |plans| > 0
    requires ProcessAll(env, reg, dir, fs, plans).Done?
    ensures var one := ProcessOne(env, reg, dir, fs, plans[0]);
            && one.Done?
            && var rest := ProcessAll(env, one.value.hashedFiles, dir, one.fs, plans[1..]);
            && rest.Done?
            && ProcessAll(env, reg, dir, fs, plans).fs == rest.fs
            && ProcessAll(env, reg, dir, fs, plans).value.hashedFiles == rest.value.hashedFiles
  {
  }

  /** A key no plan carries keeps its registry entry. */
  lemma {:induction false} RegistryUntouched(env: Env, reg: map<string, Name>, dir: AbsPath, fs: FileSystem,
                                             plans: seq<Plan>, k: string)
    requires forall j :: 0 <= j < |plans| ==> plans[j].key != k
    requires ProcessAll(env, reg, dir, fs, plans).Done?
    ensures Keeps(ProcessAll(env, reg, dir, fs, plans).value.hashedFiles, reg, k)
    decreases |plans|
  {
    if |plans| > 0 {
      var one := ProcessOne(env, reg, dir, fs, plans[0]);
      var reg1, tail := one.value.hashedFiles, plans[1..];
      assert one.Done? && ProcessAll(env, reg1, dir, one.fs, tail).Done?
             && ProcessAll(env, reg1, dir, one.fs, tail).value.hashedFiles
                == ProcessAll(env, reg, dir, fs, plans).value.hashedFiles by {
        ProcessAllUnfold(env, reg, dir, fs, plans);
      }
      assert Keeps(reg1, reg, k) by {
        assert plans[0].key != k;
      }
      assert Keeps(ProcessAll(env, reg1, dir, one.fs, tail).value.hashedFiles, reg1, k) by {
        assert forall j :: 0 <= j < |tail| ==> tail[j].key != k by {
          forall j | 0 <= j < |tail| ensures tail[j].key != k {
            assert tail[j] == plans[j + 1];
          }
        }
        RegistryUntouched(env, reg1, dir, one.fs, tail, k);
      }
    }
  }

  /**
   With its key carried by no other plan, the registry ends up holding the
   new name of the plan at index i when it renames, and the old entry otherwise.
   */
  lemma {:induction false} RegistryAt(env: Env, reg: map<string, Name>, dir: AbsPath, fs: FileSystem,
                                      plans: seq<Plan>, i: nat)
    requires i < |plans|
    requires forall j :: 0 <= j < |plans| && j != i ==> plans[j].key != plans[i].key
    requires ProcessAll(env, reg, dir, fs, plans).Done?
    ensures var h := ProcessAll(env, reg, dir, fs, plans).value.hashedFiles;
            if Hashes(plans[i]) then plans[i].key in h && h[plans[i].key] == NewName(plans[i])
            else Keeps(h, reg, plans[i].key)
    decreases i
  {
    var k := plans[i].key;
    var one := ProcessOne(env, reg, dir, fs, plans[0]);
    var reg1, tail := one.value.hashedFiles, plans[1..];
    var h := ProcessAll(env, reg, dir, fs, plans).value.hashedFiles;
    assert one.Done? && ProcessAll(env, reg1, dir, one.fs, tail).Done?
           && ProcessAll(env, reg1, dir, one.fs, tail).value.hashedFiles == h by {
      ProcessAllUnfold(env, reg, dir, fs, plans);
    }
    if i == 0 {
      assert Keeps(h, reg1, k) by {
        assert forall j :: 0 <= j < |tail| ==> tail[j].key != k by {
          forall j | 0 <= j < |tail| ensures tail[j].key != k {
            assert tail[j] == plans[j + 1];
          }
        }
        RegistryUntouched(env, reg1, dir, one.fs, tail, k);
      }
      if Hashes(plans[0]) {
        assert reg1 == reg[k := NewName(plans[0])];
      } else {
        assert reg1 == reg;
      }
    } else {
      assert Keeps(reg1, reg, k) by {
        assert plans[0].key != k;
      }
      assert tail[i - 1] == plans[i];
      assert forall j :: 0 <= j < |tail| && j != i - 1 ==> tail[j].key != k by {
        forall j | 0 <= j < |tail| && j != i - 1 ensures tail[j].key != k {
          assert tail[j] == plans[j + 1];
        }
      }
      RegistryAt(env, reg1, dir, one.fs, tail, i - 1);
      if !Hashes(plans[i]) {
        KeepsTrans(h, reg1, reg, k);
      }
    }
  }

  lemma KeepsTrans(h: map<string, Name>, mid: map<string, Name>, reg: map<string, Name>, k: string)
    requires Keeps(h, mid, k) && Keeps(mid, reg, k)
    ensures Keeps(h, reg, k)
  {
  }

  /** The first key's stale file is removed and never comes back. */
  lemma CleansFirst(env: Env, reg: map<string, Name>, dir: AbsPath, fs: FileSystem, plans: seq<Plan>)
    requires |plans| > 0 && plans[0].key in reg
    requires ProcessAll(env, reg, dir, fs, plans).Done?
    ensures StalePath(env, reg[plans[0].key]) !in ProcessAll(env, reg, dir, fs, plans).fs
  {
    ProcessAllUnfold(env, reg, dir, fs, plans);
  }

  /**
   The file the registry held for the key at index i, when no earlier plan
   carries that key, is gone after the loop: it is removed before the key
   is processed and the loop never creates files.
   */
  lemma {:induction false} CleansAt(env: Env, reg: map<string, Name>, dir: AbsPath, fs: FileSystem,
                                    plans: seq<Plan>, i: nat)
    requires i < |plans| && plans[i].key in reg
    requires forall j :: 0 <= j < i ==> plans[j].key != plans[i].key
    requires ProcessAll(env, reg, dir, fs, plans).Done?
    ensures StalePath(env, reg[plans[i].key]) !in ProcessAll(env, reg, dir, fs, plans).fs
    decreases i
  {
    if i == 0 {
      CleansFirst(env, reg, dir, fs, plans);
    } else {
      var one := ProcessOne(env, reg, dir, fs, plans[0]);
      var reg1, tail := one.value.hashedFiles, plans[1..];
      assert one.Done? && ProcessAll(env, reg1, dir, one.fs, tail).Done?
             && ProcessAll(env, reg1, dir, one.fs, tail).fs == ProcessAll(env, reg, dir, fs, plans).fs by {
        ProcessAllUnfold(env, reg, dir, fs, plans);
      }
      assert tail[i - 1] == plans[i] && Keeps(reg1, reg, plans[i].key) by {
        assert plans[0].key != plans[i].key;
      }
      assert forall j :: 0 <= j < i - 1 ==> tail[j].key != tail[i - 1].key by {
        forall j | 0 <= j < i - 1 ensures tail[j].key != tail[i - 1].key {
          assert tail[j] == plans[j + 1];
        }
      }
      assert StalePath(env, reg1[tail[i - 1].key]) !in ProcessAll(env, reg1, dir, one.fs, tail).fs by {
        CleansAt(env, reg1, dir, one.fs, tail, i - 1);
      }
    }
  }

  /** The loop completes when no renamed artifact exists under its original name. */
  lemma {:induction false} ProcessAllSucceeds(env: Env, reg: map<string, Name>, dir: AbsPath, fs: FileSystem, plans: seq<Plan>)
    requires forall i :: 0 <= i < |plans| && Hashes(plans[i]) ==> Resolve(dir, plans[i].item.fileName) !in fs
    ensures ProcessAll(env, reg, dir, fs, plans).Done?
    decreases |plans|
  {
    if |plans| > 0 {
      var one := ProcessOne(env, reg, dir, fs, plans[0]);
      assert one.Done?;
      forall i | 0 <= i < |plans[1..]| && Hashes(plans[1..][i])
        ensures Resolve(dir, plans[1..][i].item.fileName) !in one.fs
      {
        assert plans[1..][i] == plans[i + 1];
      }
      ProcessAllSucceeds(env, one.value.hashedFiles, dir, one.fs, plans[1..]);
    }
  }

  /**
   The loop throws only for an artifact it renames whose original file
   exists, and then with that file's ENOENT.
   */
  lemma {:induction false} ProcessAllThrows(env: Env, reg: map<string, Name>, dir: AbsPath, fs: FileSystem, plans: seq<Plan>)
    requires ProcessAll(env, reg, dir, fs, plans).Thrown?
    ensures exists i :: 0 <= i < |plans| && Hashes(plans[i]) && Resolve(dir, plans[i].item.fileName) in fs
              && ProcessAll(env, reg, dir, fs, plans).error == NoSuchFile(Resolve(dir, plans[i].item.fileName))
    decreases |plans|
  {
    var one := ProcessOne(env, reg, dir, fs, plans[0]);
    if one.Thrown? {
      assert Hashes(plans[0]) && Resolve(dir, plans[0].item.fileName) in fs;
    } else {
      ProcessAllThrows(env, one.value.hashedFiles, dir, one.fs, plans[1..]);
      var j :| 0 <= j < |plans[1..]| && Hashes(plans[1..][j]) && Resolve(dir, plans[1..][j].item.fileName) in one.fs
                && ProcessAll(env, one.value.hashedFiles, dir, one.fs, plans[1..]).error
                   == NoSuchFile(Resolve(dir, plans[1..][j].item.fileName));
      assert plans[1..][j] == plans[j + 1];
    }
  }

  /**
   The planned loop renames exactly as `Renamed` does, and its reference
   list is the candidates of the renamed bundle, in order.
   */
  lemma {:induction false} PlannedLoop(opts: Options, env: Env, entries: seq<(string, Artifact)>)
    ensures AppliedAll(PlanAll(opts, env, entries)) == RenamedAll(opts, env, entries)
    ensures PlanRefs(PlanAll(opts, env, entries)) == RefNames(RenamedAll(opts, env, entries), opts.insertCssRef)
    decreases |entries|
  {
    if |entries| > 0 {
      var plans := PlanAll(opts, env, entries);
      assert plans[1..] == PlanAll(opts, env, entries[1..]);
      PlannedLoop(opts, env, entries[1..]);
      RenamedKeepsCandidacy(opts, env, entries[0].1);
      var rest := RenamedAll(opts, env, entries[1..]);
      assert ([(entries[0].0, Renamed(opts, env, entries[0].1))] + rest)[1..] == rest;
    }
  }

  /** Every entry in its renamed form, keys and order unchanged. */
  function RenamedAll(opts: Options, env: Env, entries: seq<(string, Artifact)>): seq<(string, Artifact)>
    decreases |entries|
  {
    if |entries| == 0 then []
    else [(entries[0].0, Renamed(opts, env, entries[0].1))] + RenamedAll(opts, env, entries[1..])
  }

  lemma {:induction false} RenamedAllPointwise(opts: Options, env: Env, entries: seq<(string, Artifact)>)
    ensures |RenamedAll(opts, env, entries)| == |entries|
    ensures forall i :: 0 <= i < |entries| ==>
              RenamedAll(opts, env, entries)[i] == (entries[i].0, Renamed(opts, env, entries[i].1))
    decreases |entries|
  {
    if |entries| > 0 {
      RenamedAllPointwise(opts, env, entries[1..]);
      var r := RenamedAll(opts, env, entries);
      forall i | 0 < i < |entries|
        ensures r[i] == (entries[i].0, Renamed(opts, env, entries[i].1))
      {
        assert r[i] == RenamedAll(opts, env, entries[1..])[i - 1];
        assert entries[1..][i - 1] == entries[i];
      }
    }
  }

  // ---------------------------------------------------------------------------
  // HTML emission (`_writeHtml`)

  /**
   Lines 56-57: `resolve(cwd, output || dir)`, and when that has no
   extension it is a directory and `basename(input)` is appended.
   */
  function HtmlPath(base: AbsPath, dir: AbsPath, output: RawPath, input: RawPath): AbsPath
  {
    var out := OutputTarget(base, dir, output);
    if Extname(Basename(Abs(out))) == "" then Resolve(out, Segment(Basename(input))) else out
  }

  /** Line 56: `resolve(cwd, output || dir)`. */
  function OutputTarget(base: AbsPath, dir: AbsPath, output: RawPath): AbsPath
  {
    if Truthy(output) then Resolve(base, output) else dir
  }

  /**
   A target with an extension is the file itself; one without is a
   directory, and the file takes the source's base name inside it.
   */
  lemma HtmlPathShape(base: AbsPath, dir: AbsPath, output: RawPath, input: RawPath)
    ensures var out := OutputTarget(base, dir, output);
            Extname(Basename(Abs(out))) != "" ==> HtmlPath(base, dir, output, input) == out
    ensures var out := OutputTarget(base, dir, output);
            var b := Basename(input);
            Extname(Basename(Abs(out))) == "" && b != "" && b != "." && b != ".." ==>
              HtmlPath(base, dir, output, input) == out + [b]
    ensures var b := Basename(input);
            !Truthy(output) && Extname(Basename(Abs(dir))) == "" && b != "" && b != "." && b != ".." ==>
              HtmlPath(base, dir, output, input) == dir + [b]
  {
    var out := OutputTarget(base, dir, output);
    var b := Basename(input);
    if b != "" && b != "." && b != ".." {
      NormalizeNames(out, [b]);
    }
  }

  /**
   Resolving Node's dirname of a path is taking the directory of the
   resolved path, when the last component is a name.
   */
  lemma ResolveRawDirname(base: AbsPath, p: RawPath)
    requires |p.pieces| > 0
    requires p.pieces[|p.pieces| - 1] != "." && p.pieces[|p.pieces| - 1] != ".."
    ensures Resolve(base, RawDirname(p)) == Dirname(Resolve(base, p))
  {
    var n := |p.pieces|;
    var last: Name := p.pieces[n - 1];
    var acc := if p.absolute then [] else base;
    assert p.pieces == p.pieces[..n - 1] + [last];
    NormalizeAppend(acc, p.pieces[..n - 1], [last]);
    if !p.absolute && n == 1 {
      assert p.pieces[..n - 1] == [];
    }
  }

  /** A file name with an extension is neither "." nor "..". */
  lemma ExtnameOfDots(b: string)
    ensures b == "." || b == ".." ==> Extname(b) == ""
  {
    if b == "." {
      assert LastDot(b) == 0;
    }
  }

  /**
   Several sources with an output file name: each is written under its own
   base name in the directory of that output (line 133).
   */
  lemma MultiTargetSharesDirectory(base: AbsPath, dir: AbsPath, sources: nat, output: RawPath, input: RawPath)
    requires sources > 1 && Extname(Basename(output)) != ""
    requires Extname(Basename(Abs(Dirname(Resolve(base, output))))) == ""
    requires Basename(input) != "" && Basename(input) != "." && Basename(input) != ".."
    ensures HtmlPath(base, dir, HtmlOutputOption(sources, output), input)
            == Dirname(Resolve(base, output)) + [Basename(input)]
  {
    ExtnameOfDots(Basename(output));
    ResolveRawDirname(base, output);
    HtmlPathShape(base, dir, HtmlOutputOption(sources, output), input);
  }

  /**
   When the directory of that output itself looks like a file name (has an
   extension), every source is written to that same path, each overwriting
   the one before.
   */
  lemma MultiTargetDottedDirectory(base: AbsPath, dir: AbsPath, sources: nat, output: RawPath, input: RawPath)
    requires sources > 1 && Extname(Basename(output)) != ""
    requires Extname(Basename(Abs(Dirname(Resolve(base, output))))) != ""
    ensures HtmlPath(base, dir, HtmlOutputOption(sources, output), input) == Dirname(Resolve(base, output))
  {
    ExtnameOfDots(Basename(output));
    ResolveRawDirname(base, output);
  }

  /** Line 133: with several sources, an output with an extension is replaced by its directory. */
  function HtmlOutputOption(sources: nat, output: RawPath): RawPath
  {
    if sources > 1 && Truthy(output) && Extname(Basename(output)) != "" then RawDirname(output) else output
  }

  /** The parsed source with the title set and then its scripts min-rewritten, as configured. */
  function Prepared(opts: Options, env: Env, fs: FileSystem, path: AbsPath, code: string): Doc
  {
    var d0 := env.parseHtml(code);
    var d1 := if opts.title != "" then SetTitle(d0, opts.title) else d0;
    if opts.replaceToMinScripts then RewriteScripts(d1, path, fs.Keys, true) else d1
  }

  /**
   The title is set before the min-rewrite, which leaves titles alone: every
   title in head carries the configured text. The body is the parsed body,
   rewritten node by node from the HTML file's directory when configured.
   */
  lemma PreparedShape(opts: Options, env: Env, fs: FileSystem, path: AbsPath, code: string)
    ensures var r := Prepared(opts, env, fs, path, code);
            opts.title != "" ==>
              && HasTitle(r.head)
              && forall i :: 0 <= i < |r.head| && r.head[i].Title? ==> r.head[i].text == opts.title
    ensures var r := Prepared(opts, env, fs, path, code);
            var parsed := env.parseHtml(code).body;
            && |r.body| == |parsed|
            && forall i :: 0 <= i < |parsed| ==>
                 r.body[i] == if opts.replaceToMinScripts then RewriteNode(parsed[i], Dirname(path), fs.Keys, true) else parsed[i]
  {
    var d0 := env.parseHtml(code);
    var d1 := if opts.title != "" then SetTitle(d0, opts.title) else d0;
    var r := Prepared(opts, env, fs, path, code);
    if opts.title != "" && opts.replaceToMinScripts {
      var k :| 0 <= k < |d1.head| && d1.head[k].Title?;
      assert r.head[k] == d1.head[k];
    }
  }

  /** The reference files resolved against the bundle directory (line 64). */
  function ResolveAll(dir: AbsPath, refFiles: seq<RawPath>): (r: seq<AbsPath>)
    ensures |r| == |refFiles|
    ensures forall i :: 0 <= i < |r| ==> r[i] == Resolve(dir, refFiles[i])
  {
    seq(|refFiles|, i requires 0 <= i < |refFiles| => Resolve(dir, refFiles[i]))
  }

  /** One written HTML file: its path, the final document and the text written. */
  datatype Emitted = Emitted(path: AbsPath, doc: Doc, text: string)

  /**
   `_writeHtml`: the file written for one source and its text (lines 55-75).
   The document keeps everything the prepared source holds and appends the
   references after it, scripts to body and links to head, in
   reference-list order; the text is its serialisation after the
   replacements, applied in the object's enumeration order.
   */
  function WriteHtml(opts: Options, env: Env, fs: FileSystem, dir: AbsPath, input: RawPath,
                     output: RawPath, code: string, refFiles: seq<RawPath>): (e: Emitted)
    ensures e.path == HtmlPath(BaseDir(opts, env), dir, output, input)
    ensures var d := Prepared(opts, env, fs, e.path, code);
            var files := ResolveAll(dir, refFiles);
            e.doc == Doc(d.head + LinkRefs(files, e.path), d.body + ScriptRefs(files, e.path))
    ensures e.text == ApplyReplaces(env.serialize(e.doc), OwnKeyOrder(opts.replacements))
  {
    var path := HtmlPath(BaseDir(opts, env), dir, output, input);
    var prepared := Prepared(opts, env, fs, path, code);
    AppendRefsShape(prepared, ResolveAll(dir, refFiles), path);
    var doc := AppendRefs(prepared, ResolveAll(dir, refFiles), path);
    Emitted(path, doc, ApplyReplaces(env.serialize(doc), OwnKeyOrder(opts.replacements)))
  }

  /** No later file in the list is written to the same path as the i-th. */
  predicate LastAt(es: seq<Emitted>, i: nat)
    requires i < |es|
  {
    forall j :: i < j < |es| ==> es[j].path != es[i].path
  }

  /** Some file in the list is written to `q`. */
  predicate WrittenTo(es: seq<Emitted>, q: AbsPath)
  {
    exists j :: 0 <= j < |es| && es[j].path == q
  }

  /** `e` is the file `_writeHtml` makes of the source `c`, on some disk. */
  ghost predicate EmittedFor(opts: Options, env: Env, dir: AbsPath, output: RawPath, refFiles: seq<RawPath>,
                             e: Emitted, c: Captured)
  {
    exists disk: FileSystem :: e == WriteHtml(opts, env, disk, dir, c.id, output, c.code, refFiles)
  }

  /**
   Writing `e` and then the files `rest` onto `fs` leaves the disk `after`:
   no file is removed, every file written is there, and every new file is
   one of them.
   */
  lemma DiskKeysCons(fs: FileSystem, e: Emitted, after: FileSystem, rest: seq<Emitted>)
    requires fs[e.path := e.text].Keys <= after.Keys
    requires forall i :: 0 <= i < |rest| ==> rest[i].path in after
    requires forall q :: q in after && q !in fs[e.path := e.text] ==> WrittenTo(rest, q)
    ensures fs.Keys <= after.Keys
    ensures forall i :: 0 <= i < |[e] + rest| ==> ([e] + rest)[i].path in after
    ensures forall q :: q in after && q !in fs ==> WrittenTo([e] + rest, q)
  {
    var all := [e] + rest;
    forall i | 0 <= i < |all| ensures all[i].path in after {
      if i > 0 {
        assert all[i] == rest[i - 1];
      }
    }
    forall q | q in after && q !in fs ensures WrittenTo(all, q) {
      if q != e.path {
        var j :| 0 <= j < |rest| && rest[j].path == q;
        assert all[j + 1] == rest[j];
      } else {
        assert all[0].path == q;
      }
    }
  }

  /**
   The same writes seen through contents: the last file written to a path
   is what it holds, and a path nobody writes keeps its old contents.
   */
  lemma DiskContentsCons(fs: FileSystem, e: Emitted, after: FileSystem, rest: seq<Emitted>)
    requires fs[e.path := e.text].Keys <= after.Keys
    requires forall i :: 0 <= i < |rest| ==> rest[i].path in after
    requires forall i :: 0 <= i < |rest| && LastAt(rest, i) ==> after[rest[i].path] == rest[i].text
    requires forall q :: q in fs[e.path := e.text] && !WrittenTo(rest, q) ==> after[q] == fs[e.path := e.text][q]
    ensures forall i :: 0 <= i < |[e] + rest| && LastAt([e] + rest, i) ==> after[([e] + rest)[i].path] == ([e] + rest)[i].text
    ensures forall q :: q in fs && !WrittenTo([e] + rest, q) ==> after[q] == fs[q]
  {
    var all := [e] + rest;
    forall i | 0 <= i < |all| && LastAt(all, i) ensures after[all[i].path] == all[i].text {
      if i == 0 {
        assert !WrittenTo(rest, e.path) by {
          forall j | 0 <= j < |rest| ensures rest[j].path != e.path {
            assert rest[j] == all[j + 1];
          }
        }
      } else {
        assert all[i] == rest[i - 1];
        assert LastAt(rest, i - 1) by {
          forall j | i - 1 < j < |rest| ensures rest[j].path != rest[i - 1].path {
            assert rest[j] == all[j + 1];
          }
        }
      }
    }
    forall q | q in fs && !WrittenTo(all, q) ensures after[q] == fs[q] {
      assert all[0] == e;
      assert !WrittenTo(rest, q) by {
        forall j | 0 <= j < |rest| ensures rest[j].path != q {
          assert rest[j] == all[j + 1];
        }
      }
    }
  }

  /** Each file of `[e] + rest` is made by `_writeHtml` from its own source. */
  lemma EmittedForCons(opts: Options, env: Env, dir: AbsPath, output: RawPath, refFiles: seq<RawPath>,
                       html: seq<Captured>, e: Emitted, rest: seq<Emitted>)
    requires |html| > 0 && |rest| == |html| - 1
    requires EmittedFor(opts, env, dir, output, refFiles, e, html[0])
    requires forall i :: 0 <= i < |rest| ==> EmittedFor(opts, env, dir, output, refFiles, rest[i], html[1..][i])
    ensures forall i :: 0 <= i < |html| ==> EmittedFor(opts, env, dir, output, refFiles, ([e] + rest)[i], html[i])
  {
    forall i | 0 < i < |html| ensures EmittedFor(opts, env, dir, output, refFiles, ([e] + rest)[i], html[i]) {
      assert ([e] + rest)[i] == rest[i - 1] && html[i] == html[1..][i - 1];
    }
  }

  /** Each file of `[e] + rest` is at the path of its own source. */
  lemma PathsCons(opts: Options, env: Env, dir: AbsPath, output: RawPath, html: seq<Captured>, e: Emitted, rest: seq<Emitted>)
    requires |html| > 0 && |rest| == |html| - 1
    requires e.path == HtmlPath(BaseDir(opts, env), dir, output, html[0].id)
    requires forall i :: 0 <= i < |rest| ==> rest[i].path == HtmlPath(BaseDir(opts, env), dir, output, html[1..][i].id)
    ensures forall i :: 0 <= i < |html| ==> ([e] + rest)[i].path == HtmlPath(BaseDir(opts, env), dir, output, html[i].id)
  {
    forall i | 0 < i < |html| ensures ([e] + rest)[i].path == HtmlPath(BaseDir(opts, env), dir, output, html[i].id) {
      assert ([e] + rest)[i] == rest[i - 1] && html[i] == html[1..][i - 1];
    }
  }

  /**
   `html.every(source => _writeHtml(...))`: the sources are written in
   order, each write seeing the files written before it. Each file is what
   `_writeHtml` makes of its source; the disk holds the text of the last
   file written to each path, every other file as it was, and no file that
   was not written.
   */
  function WriteAll(opts: Options, env: Env, dir: AbsPath, output: RawPath, refFiles: seq<RawPath>,
                    fs: FileSystem, html: seq<Captured>): (r: (FileSystem, seq<Emitted>))
    ensures |r.1| == |html|
    ensures forall i :: 0 <= i < |html| ==> EmittedFor(opts, env, dir, output, refFiles, r.1[i], html[i])
    ensures forall i :: 0 <= i < |html| ==> r.1[i].path == HtmlPath(BaseDir(opts, env), dir, output, html[i].id)
    ensures forall i :: 0 <= i < |html| ==> r.1[i].path in r.0
    ensures forall i :: 0 <= i < |html| && LastAt(r.1, i) ==> r.0[r.1[i].path] == r.1[i].text
    ensures fs.Keys <= r.0.Keys
    ensures forall q :: q in fs && !WrittenTo(r.1, q) ==> r.0[q] == fs[q]
    ensures forall q :: q in r.0 && q !in fs ==> WrittenTo(r.1, q)
    decreases |html|
  {
    if |html| == 0 then (fs, [])
    else
      var e := WriteHtml(opts, env, fs, dir, html[0].id, output, html[0].code, refFiles);
      var rest := WriteAll(opts, env, dir, output, refFiles, fs[e.path := e.text], html[1..]);
      PathsCons(opts, env, dir, output, html, e, rest.1);
      EmittedForCons(opts, env, dir, output, refFiles, html, e, rest.1);
      DiskKeysCons(fs, e, rest.0, rest.1);
      DiskContentsCons(fs, e, rest.0, rest.1);
      (rest.0, [e] + rest.1)
  }

  /** The disk after the first `i` sources have been written. */
  function DiskBefore(opts: Options, env: Env, dir: AbsPath, output: RawPath, refFiles: seq<RawPath>,
                      fs: FileSystem, html: seq<Captured>, i: nat): FileSystem
    requires i <= |html|
    decreases i
  {
    if i == 0 then fs
    else
      var e := WriteHtml(opts, env, fs, dir, html[0].id, output, html[0].code, refFiles);
      DiskBefore(opts, env, dir, output, refFiles, fs[e.path := e.text], html[1..], i - 1)
  }

  /**
   The i-th source is written on the disk that the sources before it left:
   a min-rewrite in a later source sees the HTML files written earlier.
   */
  lemma {:induction false} WriteAllSeesPrefix(opts: Options, env: Env, dir: AbsPath, output: RawPath, refFiles: seq<RawPath>,
                                              fs: FileSystem, html: seq<Captured>, i: nat)
    requires i < |html|
    ensures WriteAll(opts, env, dir, output, refFiles, fs, html).1[i]
            == WriteHtml(opts, env, DiskBefore(opts, env, dir, output, refFiles, fs, html, i), dir, html[i].id, output, html[i].code, refFiles)
    decreases i
  {
    var e := WriteHtml(opts, env, fs, dir, html[0].id, output, html[0].code, refFiles);
    var fs1 := fs[e.path := e.text];
    var rest := WriteAll(opts, env, dir, output, refFiles, fs1, html[1..]);
    assert WriteAll(opts, env, dir, output, refFiles, fs, html).1 == [e] + rest.1;
    if i > 0 {
      WriteAllSeesPrefix(opts, env, dir, output, refFiles, fs1, html[1..], i - 1);
      assert html[i] == html[1..][i - 1];
    }
  }

  // ---------------------------------------------------------------------------
  // generateBundle

  datatype Finalized = Finalized(plugin: Plugin, bundle: seq<(string, Artifact)>,
                                 refFiles: seq<RawPath>, emitted: seq<Emitted>)

  /**
   Lines 132-153: one file per captured source, all sharing the output
   option adjusted for their number; without captured sources, one file from
   the template when it exists (its resolved path is the input), else none.
   Only HTML files are created.
   */
  function EmitHtml(opts: Options, env: Env, html: seq<Captured>, dir: AbsPath, fs: FileSystem,
                    refFiles: seq<RawPath>): (r: (FileSystem, seq<Emitted>))
    ensures |html| > 0 ==>
              && |r.1| == |html|
              && forall i :: 0 <= i < |html| ==>
                   && EmittedFor(opts, env, dir, HtmlOutputOption(|html|, opts.output), refFiles, r.1[i], html[i])
                   && r.1[i].path == HtmlPath(BaseDir(opts, env), dir, HtmlOutputOption(|html|, opts.output), html[i].id)
    ensures |html| == 0 ==>
              var input := Resolve(BaseDir(opts, env), opts.template);
              && |r.1| <= 1
              && (|r.1| == 1 <==> input in fs)
              && (input in fs ==>
                    && r.1[0] == WriteHtml(opts, env, fs, dir, Abs(input), opts.output, fs[input], refFiles)
                    && r.1[0].path == HtmlPath(BaseDir(opts, env), dir, opts.output, Abs(input)))
    ensures forall i :: 0 <= i < |r.1| ==> r.1[i].path in r.0
    ensures forall i :: 0 <= i < |r.1| && LastAt(r.1, i) ==> r.0[r.1[i].path] == r.1[i].text
    ensures fs.Keys <= r.0.Keys
    ensures forall q :: q in fs && !WrittenTo(r.1, q) ==> r.0[q] == fs[q]
    ensures forall q :: q in r.0 ==> q in fs || WrittenTo(r.1, q)
  {
    if |html| > 0 then
      WriteAll(opts, env, dir, HtmlOutputOption(|html|, opts.output), refFiles, fs, html)
    else
      EmitTemplate(opts, env, dir, fs, refFiles)
  }

  /**
   Lines 141-153: without captured sources, the template (resolved against
   the base directory) is written when it exists; nothing happens otherwise.
   */
  function EmitTemplate(opts: Options, env: Env, dir: AbsPath, fs: FileSystem, refFiles: seq<RawPath>)
    : (r: (FileSystem, seq<Emitted>))
    ensures var input := Resolve(BaseDir(opts, env), opts.template);
            && |r.1| <= 1
            && (|r.1| == 1 <==> input in fs)
            && (input in fs ==>
                  && r.1[0] == WriteHtml(opts, env, fs, dir, Abs(input), opts.output, fs[input], refFiles)
                  && r.1[0].path == HtmlPath(BaseDir(opts, env), dir, opts.output, Abs(input))
                  && r.0 == fs[r.1[0].path := r.1[0].text])
            && (input !in fs ==> r.0 == fs)
  {
    var input := Resolve(BaseDir(opts, env), opts.template);
    if input in fs then
      var e := WriteHtml(opts, env, fs, dir, Abs(input), opts.output, fs[input], refFiles);
      (fs[e.path := e.text], [e])
    else
      (fs, [])
  }

  /** Line 117: `parse(resolve(options.file)).dir`, the directory the bundle is written to. */
  function BundleDir(env: Env, file: RawPath): AbsPath
  {
    Dirname(Resolve(env.processCwd, file))
  }

  /** Line 116: nothing happens unless writing, with captured HTML or a template. */
  predicate Gated(opts: Options, p: Plugin, isWrite: bool)
  {
    !isWrite || (|p.html| == 0 && !Truthy(opts.template))
  }

  /**
   `generateBundle(options, bundle, isWrite)`; `file` is `options.file`, and
   `bundle` the bundle object's entries in insertion order.
   */
  function GenerateBundle(opts: Options, env: Env, p: Plugin, file: Option<RawPath>,
                          bundle: seq<(string, Artifact)>, isWrite: bool, fs: FileSystem): (r: Outcome<Finalized>)
    ensures Gated(opts, p, isWrite) ==> r == Done(fs, Finalized(p, bundle, [], []))
    ensures !Gated(opts, p, isWrite) && file.None? ==> r == Thrown(fs, InvalidPath)
    ensures r.Done? ==> r.value.plugin.html == p.html
    ensures r.Thrown? ==> Shrinks(fs, r.fs)
    ensures !Gated(opts, p, isWrite) && r.Done? && |p.html| > 0 ==>
              && |r.value.emitted| == |p.html|
              && forall i :: 0 <= i < |p.html| ==>
                   && EmittedFor(opts, env, BundleDir(env, file.value), HtmlOutputOption(|p.html|, opts.output),
                                 r.value.refFiles, r.value.emitted[i], p.html[i])
                   && r.value.emitted[i].path == HtmlPath(BaseDir(opts, env), BundleDir(env, file.value),
                                                          HtmlOutputOption(|p.html|, opts.output), p.html[i].id)
                   && r.value.emitted[i].path in r.fs
    ensures !Gated(opts, p, isWrite) && r.Done? && |p.html| == 0 ==>
              var input := Resolve(BaseDir(opts, env), opts.template);
              && |r.value.emitted| <= 1
              && (input !in fs ==> r.value.emitted == [])
              && (|r.value.emitted| == 1 ==>
                    && input in fs
                    && (exists disk: FileSystem :: input in disk && r.value.emitted[0]
                          == WriteHtml(opts, env, disk, BundleDir(env, file.value), Abs(input), opts.output, disk[input], r.value.refFiles))
                    && r.value.emitted[0].path == HtmlPath(BaseDir(opts, env), BundleDir(env, file.value), opts.output, Abs(input))
                    && r.value.emitted[0].path in r.fs)
    ensures r.Done? ==>
              forall i :: 0 <= i < |r.value.emitted| && LastAt(r.value.emitted, i) ==>
                r.value.emitted[i].path in r.fs && r.fs[r.value.emitted[i].path] == r.value.emitted[i].text
  {
    if Gated(opts, p, isWrite) then Done(fs, Finalized(p, bundle, [], []))
    else if file.None? then Thrown(fs, InvalidPath)
    else
      var dir := BundleDir(env, file.value);
      match ProcessAll(env, p.hashedFiles, dir, fs, PlanAll(opts, env, OwnKeyOrder(bundle)))
      case Thrown(fs1, e) => Thrown(fs1, e)
      case Done(fs1, done) =>
        var written := EmitHtml(opts, env, p.html, dir, fs1, done.refFiles);
        Done(written.0, Finalized(p.(hashedFiles := done.hashedFiles), done.entries, done.refFiles, written.1))
  }

  // ---------------------------------------------------------------------------
  // generateBundle over the bundle object

  /** The position in enumeration order of the bundle's i-th inserted entry. */
  lemma EnumeratedAt<V>(entries: seq<(string, V)>, i: nat) returns (j: nat)
    requires i < |entries|
    ensures j < |OwnKeyOrder(entries)| && OwnKeyOrder(entries)[j] == entries[i]
  {
    OwnKeyOrderPermutation(entries);
    assert entries[i] in multiset(OwnKeyOrder(entries));
    j :| 0 <= j < |OwnKeyOrder(entries)| && OwnKeyOrder(entries)[j] == entries[i];
  }

  /** The inserted entry that enumeration yields at position j. */
  lemma InsertedAt<V>(entries: seq<(string, V)>, j: nat) returns (i: nat)
    requires j < |OwnKeyOrder(entries)|
    ensures i < |entries| && entries[i] == OwnKeyOrder(entries)[j]
  {
    OwnKeyOrderPermutation(entries);
    assert OwnKeyOrder(entries)[j] in multiset(entries);
    i :| 0 <= i < |entries| && entries[i] == OwnKeyOrder(entries)[j];
  }

  /** The pieces of a non-gated `generateBundle` run: the artifact loop, then the HTML writes. */
  lemma GenerateBundleLoop(opts: Options, env: Env, p: Plugin, file: Option<RawPath>,
                           bundle: seq<(string, Artifact)>, isWrite: bool, fs: FileSystem)
    requires !Gated(opts, p, isWrite) && file.Some?
    ensures var r := GenerateBundle(opts, env, p, file, bundle, isWrite, fs);
            var loop := ProcessAll(env, p.hashedFiles, BundleDir(env, file.value), fs, PlanAll(opts, env, OwnKeyOrder(bundle)));
            && (r.Thrown? <==> loop.Thrown?)
            && (r.Thrown? ==> r.error == loop.error && r.fs == loop.fs)
            && (r.Done? ==>
                  && r.value.plugin.hashedFiles == loop.value.hashedFiles
                  && r.value.bundle == loop.value.entries
                  && r.value.refFiles == loop.value.refFiles
                  && (r.fs, r.value.emitted) == EmitHtml(opts, env, p.html, BundleDir(env, file.value), loop.fs, loop.value.refFiles))
  {
  }

  /**
   After a completed run the bundle, in enumeration order, holds every
   artifact in its renamed form, and the reference list is the file names
   of the candidates among them, in that order.
   */
  lemma GenerateBundleRenames(opts: Options, env: Env, p: Plugin, file: Option<RawPath>,
                              bundle: seq<(string, Artifact)>, isWrite: bool, fs: FileSystem)
    requires !Gated(opts, p, isWrite) && file.Some?
    ensures var r := GenerateBundle(opts, env, p, file, bundle, isWrite, fs);
            r.Done? ==>
              && r.value.bundle == RenamedAll(opts, env, OwnKeyOrder(bundle))
              && r.value.refFiles == RefNames(r.value.bundle, opts.insertCssRef)
  {
    GenerateBundleLoop(opts, env, p, file, bundle, isWrite, fs);
    PlannedLoop(opts, env, OwnKeyOrder(bundle));
  }

  /**
   After a completed run over an object (distinct keys), the registry maps
   each renamed artifact's key to its new name; every other key, in the
   bundle or not, keeps what it held.
   */
  lemma GenerateBundleRegistry(opts: Options, env: Env, p: Plugin, file: Option<RawPath>,
                               bundle: seq<(string, Artifact)>, isWrite: bool, fs: FileSystem)
    requires !Gated(opts, p, isWrite) && file.Some? && DistinctKeys(bundle)
    requires GenerateBundle(opts, env, p, file, bundle, isWrite, fs).Done?
    ensures var h := GenerateBundle(opts, env, p, file, bundle, isWrite, fs).value.plugin.hashedFiles;
            forall i :: 0 <= i < |bundle| ==>
              if TagFor(opts, env, bundle[i].1).Some? then
                bundle[i].0 in h && Segment(h[bundle[i].0]) == Renamed(opts, env, bundle[i].1).fileName
              else Keeps(h, p.hashedFiles, bundle[i].0)
    ensures var h := GenerateBundle(opts, env, p, file, bundle, isWrite, fs).value.plugin.hashedFiles;
            forall k :: k !in KeySet(bundle) ==> Keeps(h, p.hashedFiles, k)
  {
    var ordered := OwnKeyOrder(bundle);
    var plans := PlanAll(opts, env, ordered);
    var dir := BundleDir(env, file.value);
    var h := GenerateBundle(opts, env, p, file, bundle, isWrite, fs).value.plugin.hashedFiles;
    assert ProcessAll(env, p.hashedFiles, dir, fs, plans).Done?
           && ProcessAll(env, p.hashedFiles, dir, fs, plans).value.hashedFiles == h by {
      GenerateBundleLoop(opts, env, p, file, bundle, isWrite, fs);
    }
    OwnKeyOrderDistinct(bundle);
    forall i | 0 <= i < |bundle|
      ensures if TagFor(opts, env, bundle[i].1).Some? then
                bundle[i].0 in h && Segment(h[bundle[i].0]) == Renamed(opts, env, bundle[i].1).fileName
              else Keeps(h, p.hashedFiles, bundle[i].0)
    {
      var j := EnumeratedAt(bundle, i);
      assert plans[j] == PlanFor(opts, env, bundle[i].0, bundle[i].1);
      forall m | 0 <= m < |plans| && m != j ensures plans[m].key != plans[j].key {
        assert plans[m].key == ordered[m].0;
      }
      RegistryAt(env, p.hashedFiles, dir, fs, plans, j);
    }
    forall k | k !in KeySet(bundle) ensures Keeps(h, p.hashedFiles, k) {
      forall m | 0 <= m < |plans| ensures plans[m].key != k {
        assert plans[m].key == ordered[m].0 && ordered[m].0 in KeySet(ordered);
      }
      RegistryUntouched(env, p.hashedFiles, dir, fs, plans, k);
    }
  }

  /**
   After a completed run over an object, the file the registry held for a
   key of the bundle is gone, unless an HTML file was written at that path.
   */
  lemma GenerateBundleCleans(opts: Options, env: Env, p: Plugin, file: Option<RawPath>,
                             bundle: seq<(string, Artifact)>, isWrite: bool, fs: FileSystem)
    requires !Gated(opts, p, isWrite) && file.Some? && DistinctKeys(bundle)
    requires GenerateBundle(opts, env, p, file, bundle, isWrite, fs).Done?
    ensures var r := GenerateBundle(opts, env, p, file, bundle, isWrite, fs);
            forall i :: 0 <= i < |bundle| && bundle[i].0 in p.hashedFiles && StalePath(env, p.hashedFiles[bundle[i].0]) in r.fs ==>
              exists j :: 0 <= j < |r.value.emitted| && r.value.emitted[j].path == StalePath(env, p.hashedFiles[bundle[i].0])
  {
    var r := GenerateBundle(opts, env, p, file, bundle, isWrite, fs);
    var ordered := OwnKeyOrder(bundle);
    var plans := PlanAll(opts, env, ordered);
    var loop := ProcessAll(env, p.hashedFiles, BundleDir(env, file.value), fs, plans);
    GenerateBundleLoop(opts, env, p, file, bundle, isWrite, fs);
    assert forall q :: q in r.fs ==> q in loop.fs || exists j :: 0 <= j < |r.value.emitted| && r.value.emitted[j].path == q;
    OwnKeyOrderDistinct(bundle);
    forall i | 0 <= i < |bundle| && bundle[i].0 in p.hashedFiles
      ensures StalePath(env, p.hashedFiles[bundle[i].0]) !in loop.fs
    {
      var j := EnumeratedAt(bundle, i);
      assert plans[j].key == bundle[i].0;
      forall m | 0 <= m < j ensures plans[m].key != plans[j].key {
        assert plans[m].key == ordered[m].0;
      }
      CleansAt(env, p.hashedFiles, BundleDir(env, file.value), fs, plans, j);
    }
  }

  /**
   A run that throws does so for an artifact it renames whose file already
   exists under its original name, with that file's ENOENT, or because
   `options.file` is missing.
   */
  lemma GenerateBundleThrows(opts: Options, env: Env, p: Plugin, file: Option<RawPath>,
                             bundle: seq<(string, Artifact)>, isWrite: bool, fs: FileSystem)
    requires GenerateBundle(opts, env, p, file, bundle, isWrite, fs).Thrown?
    ensures var e := GenerateBundle(opts, env, p, file, bundle, isWrite, fs).error;
            || (file.None? && e == InvalidPath)
            || (file.Some? &&
                exists i :: 0 <= i < |bundle| && TagFor(opts, env, bundle[i].1).Some?
                              && Resolve(BundleDir(env, file.value), bundle[i].1.fileName) in fs
                              && e == NoSuchFile(Resolve(BundleDir(env, file.value), bundle[i].1.fileName)))
  {
    if file.Some? {
      var ordered := OwnKeyOrder(bundle);
      var plans := PlanAll(opts, env, ordered);
      var dir := BundleDir(env, file.value);
      GenerateBundleLoop(opts, env, p, file, bundle, isWrite, fs);
      ProcessAllThrows(env, p.hashedFiles, dir, fs, plans);
      var j :| 0 <= j < |plans| && Hashes(plans[j]) && Resolve(dir, plans[j].item.fileName) in fs
               && ProcessAll(env, p.hashedFiles, dir, fs, plans).error == NoSuchFile(Resolve(dir, plans[j].item.fileName));
      var i := InsertedAt(bundle, j);
      assert plans[j] == PlanFor(opts, env, bundle[i].0, bundle[i].1);
    }
  }

  /** A run completes when `options.file` is set and no artifact it renames exists under its original name. */
  lemma GenerateBundleSucceeds(opts: Options, env: Env, p: Plugin, file: Option<RawPath>,
                               bundle: seq<(string, Artifact)>, isWrite: bool, fs: FileSystem)
    requires file.Some?
    requires forall i :: 0 <= i < |bundle| && TagFor(opts, env, bundle[i].1).Some? ==>
               Resolve(BundleDir(env, file.value), bundle[i].1.fileName) !in fs
    ensures GenerateBundle(opts, env, p, file, bundle, isWrite, fs).Done?
  {
    if !Gated(opts, p, isWrite) {
      var ordered := OwnKeyOrder(bundle);
      var plans := PlanAll(opts, env, ordered);
      var dir := BundleDir(env, file.value);
      forall j | 0 <= j < |plans| && Hashes(plans[j])
        ensures Resolve(dir, plans[j].item.fileName) !in fs
      {
        var i := InsertedAt(bundle, j);
        assert plans[j] == PlanFor(opts, env, bundle[i].0, bundle[i].1);
      }
      ProcessAllSucceeds(env, p.hashedFiles, dir, fs, plans);
      GenerateBundleLoop(opts, env, p, file, bundle, isWrite, fs);
    }
  }
}
