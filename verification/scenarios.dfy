/**
 Worked instances of the rules the plugin follows, on concrete names: the
 hashed file name, the relative reference, the `.min` rewrite, the order in
 which replacements are applied.
 */
module Scenarios {
  import opened Common
  import opened NodePath
  import opened JsString
  import opened Document

  /** `app.js` splits into the name `app` and the extension `.js`. */
  lemma AppJsParts()
    ensures Extname("app.js") == ".js" && Stem("app.js") == "app"
  {
    assert LastDot("app.js") == 3 by {
      assert "app.js"[..5] == "app.j" && "app.j"[..4] == "app.";
    }
  }

  /** `app.js` tagged `abc123` becomes `app.abc123.js`. */
  lemma HashedName()
    ensures Infix("app.js", "abc123") == "app.abc123.js"
  {
    AppJsParts();
  }

  /** From `/out/index.html`, the hashed script in `/out/assets` is `assets/app.abc123.js`. */
  lemma RelativeReference()
    ensures RefNode(["out", "assets", "app.abc123.js"], ["out", "index.html"])
            == Script(Some(RawPath(false, ["assets", "app.abc123.js"])))
  {
    var s := "app.abc123.js";
    var dir: AbsPath, rest: seq<Name> := ["out"], ["assets", s];
    assert dir + rest == ["out", "assets", s] && dir + ["index.html"] == ["out", "index.html"];
    assert IsScriptFile(dir + rest) by {
      assert LastDot(s) == 10 by {
        assert s[10] == '.' && s[11] == 'j' && s[12] == 's';
      }
    }
    ScriptRefBelow(dir, rest, "index.html");
  }

  /** `<script src="app.js">` read from `/out` has `/out/app.min.js` as its `.min` sibling. */
  lemma MinSiblingOfApp()
    ensures MinSibling(["out"], RawPath(false, ["app.js"])) == ["out", "app.min.js"]
  {
    AppJsParts();
    assert Infix("app.js", "min") == "app.min.js";
    NormalizeNames(["out"], ["app.min.js"]);
  }

  /** With `/out/app.min.js` on disk, `<script src="app.js">` in `/out/index.html` is pointed at `app.min.js`. */
  lemma MinRewrite()
    ensures RewriteNode(Script(Some(RawPath(false, ["app.js"]))), ["out"], {["out", "app.min.js"]}, true)
            == Script(Some(RawPath(false, ["app.min.js"])))
  {
    MinSiblingOfApp();
    RelativeDescendant(["out"], ["app.min.js"]);
    assert ["out"] + ["app.min.js"] == ["out", "app.min.js"];
  }

  lemma ReplaceA()
    ensures ReplaceFirst("%A%-%B%", "%A%", "1") == "1-%B%"
  {
    var s := "%A%-%B%";
    assert OccursAt(s, "%A%", 0) by {
      assert s[0..3] == "%A%";
    }
    ReplaceFirstLiteral(s, "%A%", "1", 0);
    assert s[..0] + "1" + s[3..] == "1-%B%";
  }

  lemma ReplaceB()
    ensures ReplaceFirst("1-%B%", "%B%", "%A%") == "1-%A%"
  {
    var s := "1-%B%";
    assert OccursAt(s, "%B%", 2) by {
      assert s[2..5] == "%B%";
    }
    assert !OccursAt(s, "%B%", 0) by {
      assert s[0..3][0] == '1';
    }
    assert !OccursAt(s, "%B%", 1) by {
      assert s[1..4][0] == '-';
    }
    ReplaceFirstLiteral(s, "%B%", "%A%", 2);
    assert s[..2] + "%A%" + s[5..] == "1-%A%";
  }

  /**
   Replacements run in order on the current text, first occurrence only:
   `%B%` becomes `%A%` after `%A%` was already replaced, so it stays.
   */
  lemma ReplacementCascade()
    ensures ApplyReplaces("%A%-%B%", [("%A%", "1"), ("%B%", "%A%")]) == "1-%A%"
  {
    var entries := [("%A%", "1"), ("%B%", "%A%")];
    ReplaceA();
    ReplaceB();
    assert entries[1..] == [("%B%", "%A%")];
    assert entries[1..][1..] == [];
  }
}
