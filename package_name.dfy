/**
 * The human-readable name the worker shows while installing one entry of its
 * dependency list: a wheel locator is reduced to the distribution name, any
 * other entry is shown as written.
 */
module PackageName {
  import opened JsStrings

  const WheelSuffix := ".whl"

  /**
   * For a wheel, the first `-`-delimited token of the last `/`-delimited
   * segment; otherwise the entry unchanged. The `.whl` suffix itself is not
   * stripped, so a wheel file name without any `-` keeps it.
   */
  function DisplayName(pkg: string): (name: string)
    ensures EndsWith(pkg, WheelSuffix) ==> IsFirstPiece(name, LastPiece(pkg, '/'), '-')
    ensures EndsWith(pkg, WheelSuffix) ==> '/' !in name && '-' !in name
    ensures !EndsWith(pkg, WheelSuffix) ==> name == pkg
  {
    if EndsWith(pkg, WheelSuffix) then
      var segment := LastPiece(pkg, '/');
      var name := FirstPiece(segment, '-');
      assert forall c :: c in name ==> c in segment;
      name
    else
      pkg
  }

  /**
   * A wheel locator `<prefix>/<name>-<rest>` whose `<name>` holds neither `/`
   * nor `-` is shown as `<name>`, whatever the prefix and the version tags.
   */
  lemma {:induction false} WheelName(prefix: string, name: string, rest: string)
    requires '/' !in name && '-' !in name && '/' !in rest
    requires EndsWith(rest, WheelSuffix)
    ensures DisplayName(prefix + "/" + name + "-" + rest) == name
  {
    var segment := name + "-" + rest;
    var pkg := prefix + "/" + segment;
    assert pkg == prefix + "/" + name + "-" + rest;
    assert pkg[|pkg| - |rest|..] == rest;
    assert EndsWith(pkg, WheelSuffix) by {
      assert pkg[|pkg| - |WheelSuffix|..] == rest[|rest| - |WheelSuffix|..];
    }
    LastPieceAfterSeparator(prefix, segment, '/');
    LastPieceUnique(segment, LastPiece(pkg, '/'), pkg, '/');
    FirstPieceBeforeSeparator(name, rest, '-');
    FirstPieceUnique(name, DisplayName(pkg), segment, '-');
  }

  /**
   * The panel wheel of the worker's dependency list,
   * `https://cdn.holoviz.org/panel/1.5.5/dist/wheels/panel-1.5.5-py3-none-any.whl`,
   * written here in its three parts, is shown as `panel`.
   */
  lemma PanelWheelName()
    ensures DisplayName("https://cdn.holoviz.org/panel/1.5.5/dist/wheels" + "/" + "panel" + "-" + "1.5.5-py3-none-any.whl") == "panel"
  {
    var rest := "1.5.5-py3-none-any.whl";
    assert EndsWith(rest, WheelSuffix);
    assert '/' !in rest && '/' !in "panel" && '-' !in "panel";
    WheelName("https://cdn.holoviz.org/panel/1.5.5/dist/wheels", "panel", rest);
  }

  lemma LastPieceAfterSeparator(prefix: string, t: string, sep: char)
    requires sep !in t
    ensures IsLastPiece(t, prefix + [sep] + t, sep)
  {
    var s := prefix + [sep] + t;
    assert s[|s| - |t|..] == t;
  }

  lemma FirstPieceBeforeSeparator(t: string, rest: string, sep: char)
    requires sep !in t
    ensures IsFirstPiece(t, t + [sep] + rest, sep)
  {
    var s := t + [sep] + rest;
    assert s[..|t|] == t;
  }

  /**
   * A wheel file name without any `-` is shown whole, `.whl` suffix included:
   * the suffix only selects the wheel branch and is never removed.
   */
  lemma {:induction false} WheelSuffixKept(prefix: string, file: string)
    requires '/' !in file && '-' !in file
    requires EndsWith(file, WheelSuffix)
    ensures DisplayName(prefix + "/" + file) == file
  {
    var pkg := prefix + "/" + file;
    assert pkg[|pkg| - |file|..] == file;
    assert EndsWith(pkg, WheelSuffix) by {
      assert pkg[|pkg| - |WheelSuffix|..] == file[|file| - |WheelSuffix|..];
    }
    LastPieceAfterSeparator(prefix, file, '/');
    LastPieceUnique(file, LastPiece(pkg, '/'), pkg, '/');
    assert IsFirstPiece(file, file, '-');
    FirstPieceUnique(file, DisplayName(pkg), file, '-');
  }

  /** A plain requirement specifier is shown as written. */
  lemma PlainEntryName()
    ensures DisplayName("pyodide-http==0.2.1") == "pyodide-http==0.2.1"
  {
    assert !EndsWith("pyodide-http==0.2.1", WheelSuffix);
  }
}
