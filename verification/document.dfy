/**
 The HTML document as the plugin edits it through cheerio: the child lists
 of `<head>` and `<body>` (the model assumes every document has both), holding scripts,
 stylesheet links, titles and opaque other content. Only the attributes the
 plugin reads or writes are modelled.
 */
module Document {
  import opened Common
  import opened NodePath

  datatype Node =
    | Script(src: Option<RawPath>)   // <script>, with its src attribute if any
    | Stylesheet(href: RawPath)      // <link rel="stylesheet" href=...>
    | Title(text: string)            // <title>
    | Other(markup: string)          // anything else, untouched by the plugin

  datatype Doc = Doc(head: seq<Node>, body: seq<Node>)

  predicate HasTitle(head: seq<Node>)
  {
    exists i :: 0 <= i < |head| && head[i].Title?
  }

  function Retitle(n: Node, t: string): Node
  {
    if n.Title? then Title(t) else n
  }

  /**
   `_setTitle`: every title under head gets the text; when head has none,
   one is appended to it. The body is untouched.
   */
  function SetTitle(doc: Doc, t: string): (r: Doc)
    ensures r.body == doc.body
    ensures HasTitle(r.head)
    ensures forall i :: 0 <= i < |r.head| && r.head[i].Title? ==> r.head[i].text == t
    ensures HasTitle(doc.head) ==> |r.head| == |doc.head|
    ensures HasTitle(doc.head) ==>
              forall i :: 0 <= i < |doc.head| && !doc.head[i].Title? ==> r.head[i] == doc.head[i]
    ensures !HasTitle(doc.head) ==> r.head == doc.head + [Title(t)]
  {
    if HasTitle(doc.head) then
      var head := seq(|doc.head|, i requires 0 <= i < |doc.head| => Retitle(doc.head[i], t));
      var k :| 0 <= k < |doc.head| && doc.head[k].Title?;
      assert head[k].Title?;
      Doc(head, doc.body)
    else
      var head := doc.head + [Title(t)];
      assert head[|doc.head|].Title?;
      Doc(head, doc.body)
  }

  /** `extname(file) === '.js'`: the test is case-sensitive. */
  predicate IsScriptFile(file: AbsPath)
  {
    Extname(Basename(Abs(file))) == ".js"
  }

  /** The node refers to `file` when its path is read from directory `dir`. */
  predicate RefersTo(n: Node, dir: AbsPath, file: AbsPath)
  {
    || (n.Script? && n.src.Some? && Resolve(dir, n.src.value) == file)
    || (n.Stylesheet? && Resolve(dir, n.href) == file)
  }

  /** The element `_insertRef` creates for `file` in the document written to `htmlFile`. */
  function RefNode(file: AbsPath, htmlFile: AbsPath): (n: Node)
    ensures n.Script? <==> IsScriptFile(file)
    ensures n.Stylesheet? <==> !IsScriptFile(file)
    ensures RefersTo(n, Dirname(htmlFile), file)
    ensures n.Script? ==> n.src.Some? && !n.src.value.absolute
    ensures n.Stylesheet? ==> !n.href.absolute
  {
    var rel := Relative(Dirname(htmlFile), file);
    if IsScriptFile(file) then Script(Some(rel)) else Stylesheet(rel)
  }

  /** A script in or below the HTML file's directory is referenced by the path beneath that directory. */
  lemma ScriptRefBelow(dir: AbsPath, rest: seq<Name>, htmlName: Name)
    requires IsScriptFile(dir + rest)
    ensures RefNode(dir + rest, dir + [htmlName]) == Script(Some(RawPath(false, rest)))
  {
    assert Dirname(dir + [htmlName]) == dir;
    RelativeDescendant(dir, rest);
  }

  /**
   The insertion half of `_insertRef`: a `.js` file becomes a script appended
   as the last child of body, anything else a stylesheet link appended as the
   last child of head, with a path relative to the HTML file's directory.
   */
  function AppendRef(doc: Doc, file: AbsPath, htmlFile: AbsPath): (r: Doc)
    ensures IsScriptFile(file) ==>
              && r.head == doc.head
              && |r.body| == |doc.body| + 1 && r.body[..|doc.body|] == doc.body
              && r.body[|doc.body|].Script?
              && RefersTo(r.body[|doc.body|], Dirname(htmlFile), file)
    ensures !IsScriptFile(file) ==>
              && r.body == doc.body
              && |r.head| == |doc.head| + 1 && r.head[..|doc.head|] == doc.head
              && r.head[|doc.head|].Stylesheet?
              && RefersTo(r.head[|doc.head|], Dirname(htmlFile), file)
  {
    var n := RefNode(file, htmlFile);
    if IsScriptFile(file) then
      assert (doc.body + [n])[..|doc.body|] == doc.body;
      Doc(doc.head, doc.body + [n])
    else
      assert (doc.head + [n])[..|doc.head|] == doc.head;
      Doc(doc.head + [n], doc.body)
  }

  /** Appends the references one after the other, in the given order. */
  function AppendRefs(doc: Doc, files: seq<AbsPath>, htmlFile: AbsPath): Doc
    decreases |files|
  {
    if |files| == 0 then doc
    else AppendRefs(AppendRef(doc, files[0], htmlFile), files[1..], htmlFile)
  }

  /** The script elements for the `.js` files, in order. */
  function ScriptRefs(files: seq<AbsPath>, htmlFile: AbsPath): seq<Node>
    decreases |files|
  {
    if |files| == 0 then []
    else if IsScriptFile(files[0]) then [RefNode(files[0], htmlFile)] + ScriptRefs(files[1..], htmlFile)
    else ScriptRefs(files[1..], htmlFile)
  }

  /** The stylesheet links for the other files, in order. */
  function LinkRefs(files: seq<AbsPath>, htmlFile: AbsPath): seq<Node>
    decreases |files|
  {
    if |files| == 0 then []
    else if IsScriptFile(files[0]) then LinkRefs(files[1..], htmlFile)
    else [RefNode(files[0], htmlFile)] + LinkRefs(files[1..], htmlFile)
  }

  lemma {:induction false} AppendRefsBody(doc: Doc, files: seq<AbsPath>, htmlFile: AbsPath)
    ensures AppendRefs(doc, files, htmlFile).body == doc.body + ScriptRefs(files, htmlFile)
    decreases |files|
  {
    if |files| > 0 {
      AppendRefsBody(AppendRef(doc, files[0], htmlFile), files[1..], htmlFile);
      if IsScriptFile(files[0]) {
        assert ScriptRefs(files, htmlFile) == [RefNode(files[0], htmlFile)] + ScriptRefs(files[1..], htmlFile);
      }
    }
  }

  lemma {:induction false} AppendRefsHead(doc: Doc, files: seq<AbsPath>, htmlFile: AbsPath)
    ensures AppendRefs(doc, files, htmlFile).head == doc.head + LinkRefs(files, htmlFile)
    decreases |files|
  {
    if |files| > 0 {
      AppendRefsHead(AppendRef(doc, files[0], htmlFile), files[1..], htmlFile);
      if !IsScriptFile(files[0]) {
        assert LinkRefs(files, htmlFile) == [RefNode(files[0], htmlFile)] + LinkRefs(files[1..], htmlFile);
      }
    }
  }

  /**
   Inserting a list of references keeps the original children and appends
   the scripts to body and the links to head, each group in list order.
   */
  lemma AppendRefsShape(doc: Doc, files: seq<AbsPath>, htmlFile: AbsPath)
    ensures AppendRefs(doc, files, htmlFile)
            == Doc(doc.head + LinkRefs(files, htmlFile), doc.body + ScriptRefs(files, htmlFile))
  {
    AppendRefsBody(doc, files, htmlFile);
    AppendRefsHead(doc, files, htmlFile);
  }

  /** Appending one more reference after a list is appending it to the result. */
  lemma {:induction false} AppendRefsSnoc(doc: Doc, files: seq<AbsPath>, file: AbsPath, htmlFile: AbsPath)
    ensures AppendRefs(doc, files + [file], htmlFile) == AppendRef(AppendRefs(doc, files, htmlFile), file, htmlFile)
    decreases |files|
  {
    if |files| == 0 {
      assert files + [file] == [file];
    } else {
      assert (files + [file])[1..] == files[1..] + [file];
      AppendRefsSnoc(AppendRef(doc, files[0], htmlFile), files[1..], file, htmlFile);
    }
  }

  /** `resolve(htmlDir, p.dir, p.name + '.min' + p.ext)` for the script source p. */
  function MinSibling(htmlDir: AbsPath, src: RawPath): AbsPath
  {
    Resolve(Resolve(htmlDir, ParseDir(src)), Segment(Infix(Basename(src), "min")))
  }

  /** Whether a min-rewrite looks at this node: a script with a src, non-empty when `skipEmpty`. */
  predicate Considered(n: Node, skipEmpty: bool)
  {
    n.Script? && n.src.Some? && (skipEmpty ==> Truthy(n.src.value))
  }

  /**
   One script under the min-rewrite: its src is pointed at the `.min`
   sibling exactly when that file exists; every other node is unchanged.
   */
  function RewriteNode(n: Node, htmlDir: AbsPath, existing: set<AbsPath>, skipEmpty: bool): (r: Node)
    ensures r.Script? <==> n.Script?
    ensures Considered(n, skipEmpty) && MinSibling(htmlDir, n.src.value) in existing ==>
              && r.src.Some? && !r.src.value.absolute
              && Resolve(htmlDir, r.src.value) == MinSibling(htmlDir, n.src.value)
    ensures !(Considered(n, skipEmpty) && MinSibling(htmlDir, n.src.value) in existing) ==> r == n
  {
    if Considered(n, skipEmpty) && MinSibling(htmlDir, n.src.value) in existing then
      Script(Some(Relative(htmlDir, MinSibling(htmlDir, n.src.value))))
    else n
  }

  function RewriteList(ns: seq<Node>, htmlDir: AbsPath, existing: set<AbsPath>, skipEmpty: bool): (r: seq<Node>)
    ensures |r| == |ns|
    ensures forall i :: 0 <= i < |ns| ==> r[i] == RewriteNode(ns[i], htmlDir, existing, skipEmpty)
  {
    seq(|ns|, i requires 0 <= i < |ns| => RewriteNode(ns[i], htmlDir, existing, skipEmpty))
  }

  /**
   `_replaceToMinScripts` over every script of the document written to
   `htmlFile`: each child of head and of body is rewritten on its own, read
   from the HTML file's directory, and nothing is added or removed.
   */
  function RewriteScripts(doc: Doc, htmlFile: AbsPath, existing: set<AbsPath>, skipEmpty: bool): (r: Doc)
    ensures |r.head| == |doc.head| && |r.body| == |doc.body|
    ensures forall i :: 0 <= i < |doc.head| ==> r.head[i] == RewriteNode(doc.head[i], Dirname(htmlFile), existing, skipEmpty)
    ensures forall i :: 0 <= i < |doc.body| ==> r.body[i] == RewriteNode(doc.body[i], Dirname(htmlFile), existing, skipEmpty)
  {
    var dir := Dirname(htmlFile);
    Doc(RewriteList(doc.head, dir, existing, skipEmpty), RewriteList(doc.body, dir, existing, skipEmpty))
  }

  predicate ListHasSrc(ns: seq<Node>)
  {
    forall i :: 0 <= i < |ns| && ns[i].Script? ==> ns[i].src.Some?
  }

  /** Every script of the document carries a src attribute. */
  predicate AllScriptsHaveSrc(doc: Doc)
  {
    ListHasSrc(doc.head) && ListHasSrc(doc.body)
  }
}
