/**
 The `onwrite` variant of the plugin (rollup-plugin-gen-html.esm.js): after
 the bundle is written, the template is read, its scripts are optionally
 pointed at `.min` siblings, a script reference to the bundle file and a
 stylesheet reference to its `.css` sibling are appended (each only when the
 file exists, each optionally hash-renamed on disk first), the replacements
 are applied and the HTML file is written.
 */
module GenHtmlEsm {
  import opened Common
  import opened NodePath
  import opened JsString
  import opened JsObject
  import opened Document
  import opened Host

  /** The recognised options; an unset `target` is the empty path "". */
  datatype Options = Options(
    template: Option<RawPath>,
    target: RawPath,
    hash: bool,                             // JavaScript truthiness of `hash`
    replaceToMinScripts: bool,
    replacements: seq<(string, string)>)    // `replaces`: the entries in insertion order

  /** The output options rollup passes: `file` may be missing, `dir` is "" when unset. */
  datatype Config = Config(file: Option<RawPath>, dir: RawPath)

  // ---------------------------------------------------------------------------
  // `_insertRef`

  /** Line 13: `join(p.dir, p.name + '.' + md5 + p.ext)`, the hashed name beside the file. */
  function HashedPath(file: AbsPath, md5: Name): AbsPath
  {
    Dirname(file) + [Infix(Basename(Abs(file)), md5)]
  }

  /**
   The hashed name lies in the same directory, is never the file itself, and
   keeps the file's extension.
   */
  lemma HashedPathShape(file: AbsPath, md5: Name)
    ensures Dirname(HashedPath(file, md5)) == Dirname(file)
    ensures HashedPath(file, md5) != file
    ensures Extname(Basename(Abs(file))) != "" ==>
              Extname(Basename(Abs(HashedPath(file, md5)))) == Extname(Basename(Abs(file)))
  {
    var base := Basename(Abs(file));
    var name := Infix(base, md5);
    assert |name| > |base| by {
      assert name == Stem(base) + "." + md5 + Extname(base);
      assert base == Stem(base) + Extname(base);
    }
    if |file| > 0 {
      assert file[|file| - 1] == base;
      assert HashedPath(file, md5)[|file| - 1] == name;
    }
    if Extname(base) != "" {
      InfixParse(base, md5);
    }
  }

  /** Line 9: the hashed text is `code`, or the file's own contents when `code` is empty. */
  function HashInput(file: AbsPath, code: string, fs: FileSystem): string
    requires file in fs
  {
    if code != "" then code else fs[file]
  }

  /** Where the reference points once the file exists: its hashed name, or itself. */
  function PlacedAt(env: Env, hash: bool, file: AbsPath, code: string, fs: FileSystem): AbsPath
    requires file in fs
  {
    if hash then HashedPath(file, env.md5(Text(HashInput(file, code, fs)))) else file
  }

  /** The document, the disk, and the files referenced so far, in insertion order. */
  datatype Inserted = Inserted(doc: Doc, fs: FileSystem, refs: seq<AbsPath>)

  /**
   `_insertRef`: a missing file changes nothing. Otherwise, with hashing on,
   the file is moved to its hashed name (replacing whatever was there), and
   a reference to where the file now lives is appended to the document.
   */
  function InsertRef(env: Env, st: Inserted, file: AbsPath, hash: bool, code: string, htmlFile: AbsPath): (r: Inserted)
    ensures file !in st.fs ==> r == st
    ensures file in st.fs ==>
              var t := PlacedAt(env, hash, file, code, st.fs);
              && r.refs == st.refs + [t]
              && r.doc == AppendRef(st.doc, t, htmlFile)
    ensures !hash ==> r.fs == st.fs
  {
    if file !in st.fs then st
    else
      var t := PlacedAt(env, hash, file, code, st.fs);
      var fs1 := if hash then (st.fs - {t} - {file})[t := st.fs[file]] else st.fs;
      assert hash ==> t != file by {
        if hash {
          HashedPathShape(file, env.md5(Text(HashInput(file, code, st.fs))));
        }
      }
      Inserted(AppendRef(st.doc, t, htmlFile), fs1, st.refs + [t])
  }

  /**
   With hashing, an existing file is moved: its contents now live under the
   hashed name only, whatever was there before is gone, and every other
   file is as it was (lines 14-15).
   */
  lemma InsertRefMoves(env: Env, st: Inserted, file: AbsPath, code: string, htmlFile: AbsPath)
    requires file in st.fs
    ensures var r := InsertRef(env, st, file, true, code, htmlFile);
            var t := PlacedAt(env, true, file, code, st.fs);
            && t in r.fs && r.fs[t] == st.fs[file]
            && file !in r.fs
            && forall q :: q != file && q != t ==> (q in r.fs <==> q in st.fs) && (q in r.fs ==> r.fs[q] == st.fs[q])
  {
    var t := PlacedAt(env, true, file, code, st.fs);
    assert t != file by {
      HashedPathShape(file, env.md5(Text(HashInput(file, code, st.fs))));
    }
    var moved := (st.fs - {t} - {file})[t := st.fs[file]];
    assert InsertRef(env, st, file, true, code, htmlFile).fs == moved;
  }

  /** Line 55: `join(p.dir, p.name + '.css')`, the stylesheet beside the bundle file. */
  function CssSibling(file: AbsPath): AbsPath
  {
    var stem := Stem(Basename(Abs(file)));
    assert '/' !in stem by {
      assert stem + Extname(Basename(Abs(file))) == Basename(Abs(file));
      assert forall c :: c in stem ==> c in Basename(Abs(file));
    }
    Dirname(file) + [stem + ".css"]
  }

  /**
   The stylesheet shares the bundle file's directory and name and has the
   extension `.css`: `app.js` goes with `app.css`.
   */
  lemma CssSiblingShape(file: AbsPath)
    requires |file| > 0
    ensures Dirname(CssSibling(file)) == Dirname(file)
    ensures var css := Basename(Abs(CssSibling(file)));
            Stem(css) == Stem(Basename(Abs(file))) && Extname(css) == ".css"
  {
    var base := Basename(Abs(file));
    var stem := Stem(base);
    assert stem != "" by {
      ExtnameShape(base);
      assert base != "";
    }
    var css := stem + ".css";
    assert Basename(Abs(CssSibling(file))) == css;
    var k := LastDot(css);
    assert css[|stem|] == '.';
    assert forall j :: |stem| < j < |css| ==> css[j] != '.';
    assert k == |stem|;
    assert Extname(css) == ".css";
    ExtnameShape(css);
    assert Stem(css) + ".css" == css;
    assert Stem(css) == css[..|stem|];
  }

  // ---------------------------------------------------------------------------
  // `onwrite`

  /**
   Line 45: `resolve(config.dir || p.dir, target || basename(template))`;
   the template must be given when `target` is not.
   */
  function HtmlFile(env: Env, opts: Options, config: Config, file: AbsPath): AbsPath
    requires Truthy(opts.target) || opts.template.Some?
  {
    var dir := Resolve(env.processCwd, if Truthy(config.dir) then config.dir else Abs(Dirname(file)));
    Resolve(dir, if Truthy(opts.target) then opts.target else Segment(Basename(opts.template.value)))
  }

  /**
   Without `config.dir`, a plain file name as `target` (or, failing that,
   the template's base name) puts the HTML file beside the bundle file.
   */
  lemma HtmlFileBesideBundle(env: Env, opts: Options, config: Config, file: AbsPath, name: Name)
    requires !Truthy(config.dir)
    requires opts.target == Segment(name) || (opts.target == RawPath(false, []) && opts.template.Some?
                                               && Basename(opts.template.value) == name)
    ensures HtmlFile(env, opts, config, file) == Dirname(file) + [name]
  {
    var dir := Resolve(env.processCwd, Abs(Dirname(file)));
    assert dir == Dirname(file) by {
      NormalizeNames([], Dirname(file));
    }
    var leaf := if Truthy(opts.target) then opts.target else Segment(Basename(opts.template.value));
    assert leaf == RawPath(false, [name]);
    NormalizeNames(dir, [name]);
  }

  /** The template as parsed, with its scripts min-rewritten when configured. */
  function Template(env: Env, opts: Options, code: string, htmlFile: AbsPath, fs: FileSystem): Doc
  {
    var doc := env.parseHtml(code);
    if opts.replaceToMinScripts then RewriteScripts(doc, htmlFile, fs.Keys, false) else doc
  }

  /** The listed files that exist, in order. */
  function Existing(files: seq<AbsPath>, fs: FileSystem): (r: seq<AbsPath>)
    ensures forall f :: f in r <==> f in files && f in fs
    decreases |files|
  {
    if |files| == 0 then []
    else (if files[0] in fs then [files[0]] else []) + Existing(files[1..], fs)
  }

  /** Of two files, those that exist, in order. */
  lemma ExistingPair(a: AbsPath, b: AbsPath, fs: FileSystem)
    ensures Existing([a, b], fs) == (if a in fs then [a] else []) + (if b in fs then [b] else [])
  {
    var none: seq<AbsPath> := [];
    assert [a, b][1..] == [b] && [b][1..] == none;
    assert Existing(none, fs) == none;
  }

  /**
   Lines 48-61: the reference to the bundle file, then the one to its
   stylesheet, appended after the template's nodes.
   */
  function InsertBoth(env: Env, hash: bool, doc: Doc, file: AbsPath, code: string, htmlFile: AbsPath,
                      fs: FileSystem): (r: Inserted)
    ensures r.doc == AppendRefs(doc, r.refs, htmlFile)
    ensures !hash ==> r.fs == fs
  {
    var st1 := InsertRef(env, Inserted(doc, fs, []), file, hash, code, htmlFile);
    var st2 := InsertRef(env, st1, CssSibling(file), hash, "", htmlFile);
    assert st1.doc == AppendRefs(doc, st1.refs, htmlFile) by {
      if file in fs {
        AppendRefsSnoc(doc, [], PlacedAt(env, hash, file, code, fs), htmlFile);
        assert [] + [PlacedAt(env, hash, file, code, fs)] == st1.refs;
      }
    }
    assert st2.doc == AppendRefs(doc, st2.refs, htmlFile) by {
      if CssSibling(file) in st1.fs {
        AppendRefsSnoc(doc, st1.refs, PlacedAt(env, hash, CssSibling(file), "", st1.fs), htmlFile);
      }
    }
    st2
  }

  /**
   Each reference is inserted only when its file exists at its turn, and
   points where the file lives after hashing; the bundle file's comes first,
   and the stylesheet's follows exactly when the stylesheet exists on the
   disk the first insertion left.
   */
  lemma InsertBothRefs(env: Env, hash: bool, doc: Doc, file: AbsPath, code: string, htmlFile: AbsPath, fs: FileSystem)
    ensures var refs := InsertBoth(env, hash, doc, file, code, htmlFile, fs).refs;
            var st1 := InsertRef(env, Inserted(doc, fs, []), file, hash, code, htmlFile);
            && refs == st1.refs + (if CssSibling(file) in st1.fs then [PlacedAt(env, hash, CssSibling(file), "", st1.fs)] else [])
            && |refs| <= 2
            && (file in fs ==> |refs| >= 1 && refs[0] == PlacedAt(env, hash, file, code, fs))
            && (file !in fs && CssSibling(file) !in fs ==> refs == [])
            && (file !in fs && CssSibling(file) in fs ==> refs == [PlacedAt(env, hash, CssSibling(file), "", fs)])
  {
    var st1 := InsertRef(env, Inserted(doc, fs, []), file, hash, code, htmlFile);
    assert InsertBoth(env, hash, doc, file, code, htmlFile, fs) == InsertRef(env, st1, CssSibling(file), hash, "", htmlFile);
  }

  /**
   Without hashing the disk is left alone, so the references are exactly
   the bundle file and its stylesheet that exist, script first.
   */
  lemma InsertBothUnhashed(env: Env, doc: Doc, file: AbsPath, code: string, htmlFile: AbsPath, fs: FileSystem)
    ensures InsertBoth(env, false, doc, file, code, htmlFile, fs).refs == Existing([file, CssSibling(file)], fs)
  {
    var css := CssSibling(file);
    var st1 := InsertRef(env, Inserted(doc, fs, []), file, false, code, htmlFile);
    assert st1.fs == fs && st1.refs == if file in fs then [file] else [];
    var st2 := InsertRef(env, st1, css, false, "", htmlFile);
    assert st2.refs == st1.refs + if css in fs then [css] else [];
    assert InsertBoth(env, false, doc, file, code, htmlFile, fs) == st2;
    ExistingPair(file, css, fs);
  }

  /**
   Only the bundle file, its stylesheet and the places they move to can
   change: every other file keeps its presence and contents.
   */
  lemma InsertBothFrame(env: Env, hash: bool, doc: Doc, file: AbsPath, code: string, htmlFile: AbsPath, fs: FileSystem)
    ensures var r := InsertBoth(env, hash, doc, file, code, htmlFile, fs);
            forall q :: q != file && q != CssSibling(file) && q !in r.refs ==>
              (q in r.fs <==> q in fs) && (q in r.fs ==> r.fs[q] == fs[q])
  {
    var css := CssSibling(file);
    var st0 := Inserted(doc, fs, []);
    var st1 := InsertRef(env, st0, file, hash, code, htmlFile);
    var st2 := InsertRef(env, st1, css, hash, "", htmlFile);
    assert InsertBoth(env, hash, doc, file, code, htmlFile, fs) == st2;
    assert forall q :: q != file && q !in st1.refs ==> (q in st1.fs <==> q in fs) && (q in st1.fs ==> st1.fs[q] == fs[q]) by {
      if hash && file in fs {
        InsertRefMoves(env, st0, file, code, htmlFile);
      }
    }
    assert forall q :: q != css && q !in st2.refs ==> (q in st2.fs <==> q in st1.fs) && (q in st2.fs ==> st2.fs[q] == st1.fs[q]) by {
      if hash && css in st1.fs {
        InsertRefMoves(env, st1, css, "", htmlFile);
      }
    }
    assert forall q :: q in st1.refs ==> q in st2.refs;
  }

  /** The outcome of a completed `onwrite`: the HTML file, its document and text, and the files it references. */
  datatype Written = Written(htmlFile: AbsPath, doc: Doc, text: string, refs: seq<AbsPath>)

  /** `process.cwd()`-relative template path, read by `readFileSync(template)`. */
  function TemplatePath(env: Env, template: RawPath): AbsPath
  {
    Resolve(env.processCwd, template)
  }

  /**
   `onwrite(config, data)`: `dataCode` is `data.code`. Missing `config.file`
   or template throw a TypeError, a template that does not exist on disk
   throws ENOENT, and so does the min-rewrite (a TypeError) on a script
   without a src; nothing is changed on disk before any of these.
   */
  function Onwrite(opts: Options, env: Env, config: Config, dataCode: string, fs: FileSystem): (r: Outcome<Written>)
    ensures config.file.None? ==> r == Thrown(fs, InvalidPath)
    ensures r.Thrown? ==> r.fs == fs
    ensures r.Done? <==>
              && config.file.Some? && opts.template.Some?
              && TemplatePath(env, opts.template.value) in fs
              && (opts.replaceToMinScripts ==> AllScriptsHaveSrc(env.parseHtml(fs[TemplatePath(env, opts.template.value)])))
    ensures config.file.Some? && opts.template.Some? && TemplatePath(env, opts.template.value) !in fs ==>
              r == Thrown(fs, NoSuchFile(TemplatePath(env, opts.template.value)))
    ensures r.Done? ==>
              var file := Resolve(env.processCwd, config.file.value);
              && r.value.htmlFile == HtmlFile(env, opts, config, file)
              && r.value.doc == AppendRefs(Template(env, opts, fs[TemplatePath(env, opts.template.value)],
                                                    r.value.htmlFile, fs),
                                           r.value.refs, r.value.htmlFile)
              && r.value.text == ApplyReplaces(env.serialize(r.value.doc), OwnKeyOrder(opts.replacements))
              && r.value.htmlFile in r.fs && r.fs[r.value.htmlFile] == r.value.text
    ensures r.Done? ==>
              var file := Resolve(env.processCwd, config.file.value);
              var t := Template(env, opts, fs[TemplatePath(env, opts.template.value)], r.value.htmlFile, fs);
              r.fs == InsertBoth(env, opts.hash, t, file, dataCode, r.value.htmlFile, fs).fs[r.value.htmlFile := r.value.text]
    ensures r.Done? && !opts.hash ==> r.fs == fs[r.value.htmlFile := r.value.text]
  {
    if config.file.None? then Thrown(fs, InvalidPath)
    else
      var file := Resolve(env.processCwd, config.file.value);
      if !Truthy(opts.target) && opts.template.None? then Thrown(fs, InvalidPath)
      else
        var htmlFile := HtmlFile(env, opts, config, file);
        if opts.template.None? then Thrown(fs, InvalidPath)
        else
          var source := TemplatePath(env, opts.template.value);
          if source !in fs then Thrown(fs, NoSuchFile(source))
          else if opts.replaceToMinScripts && !AllScriptsHaveSrc(env.parseHtml(fs[source])) then Thrown(fs, InvalidPath)
          else
            var doc := Template(env, opts, fs[source], htmlFile, fs);
            var st := InsertBoth(env, opts.hash, doc, file, dataCode, htmlFile, fs);
            var text := ApplyReplaces(env.serialize(st.doc), OwnKeyOrder(opts.replacements));
            Done(st.fs[htmlFile := text], Written(htmlFile, st.doc, text, st.refs))
  }

  /**
   A completed `onwrite` changes only the HTML file, the bundle file, its
   stylesheet and the hashed names they were moved to; every other file
   keeps its presence and contents.
   */
  lemma OnwriteFrame(opts: Options, env: Env, config: Config, dataCode: string, fs: FileSystem)
    requires Onwrite(opts, env, config, dataCode, fs).Done?
    ensures var r := Onwrite(opts, env, config, dataCode, fs);
            var file := Resolve(env.processCwd, config.file.value);
            forall q :: q != r.value.htmlFile && q != file && q != CssSibling(file) && q !in r.value.refs ==>
              (q in r.fs <==> q in fs) && (q in r.fs ==> r.fs[q] == fs[q])
  {
    var w := Onwrite(opts, env, config, dataCode, fs).value;
    var file := Resolve(env.processCwd, config.file.value);
    var t := Template(env, opts, fs[TemplatePath(env, opts.template.value)], w.htmlFile, fs);
    InsertBothFrame(env, opts.hash, t, file, dataCode, w.htmlFile, fs);
  }

  /** The references `onwrite` inserts are those of `InsertBoth` for the bundle file. */
  lemma OnwriteRefs(opts: Options, env: Env, config: Config, dataCode: string, fs: FileSystem)
    requires Onwrite(opts, env, config, dataCode, fs).Done?
    ensures var w := Onwrite(opts, env, config, dataCode, fs).value;
            var file := Resolve(env.processCwd, config.file.value);
            var t := Template(env, opts, fs[TemplatePath(env, opts.template.value)], w.htmlFile, fs);
            w.refs == InsertBoth(env, opts.hash, t, file, dataCode, w.htmlFile, fs).refs
  {
  }

  /**
   The template's own nodes come first and are left as the min-rewrite made
   them; the references follow, scripts at the end of body and stylesheets
   at the end of head, in the order they were inserted, so the min-rewrite
   never sees them.
   */
  lemma OnwriteLayout(opts: Options, env: Env, config: Config, dataCode: string, fs: FileSystem)
    requires Onwrite(opts, env, config, dataCode, fs).Done?
    ensures var w := Onwrite(opts, env, config, dataCode, fs).value;
            var t := Template(env, opts, fs[TemplatePath(env, opts.template.value)], w.htmlFile, fs);
            && w.doc.head == t.head + LinkRefs(w.refs, w.htmlFile)
            && w.doc.body == t.body + ScriptRefs(w.refs, w.htmlFile)
  {
    var w := Onwrite(opts, env, config, dataCode, fs).value;
    var t := Template(env, opts, fs[TemplatePath(env, opts.template.value)], w.htmlFile, fs);
    AppendRefsShape(t, w.refs, w.htmlFile);
  }
}
