/** The two regular expressions `get` and `copy` apply to a source descriptor. Ruby's `^`
    and `$` are line anchors (start of text or after a newline; end of text or before a
    newline), `\w` is an ASCII word character, and `/i` folds ASCII letter case. */
module Sources {
  import opened Text
  import opened Results

  /** Where `^` can match. */
  predicate LineStart(s: string, i: int)
  {
    i == 0 || (0 < i <= |s| && s[i - 1] == '\n')
  }

  /** Where `$` can match. */
  predicate LineEnd(s: string, k: int)
  {
    k == |s| || (0 <= k < |s| && s[k] == '\n')
  }

  /** `p` occurs at position `i` of `s`, ignoring ASCII letter case (`p` is lower case). */
  predicate PrefixAtCI(s: string, i: int, p: string)
  {
    0 <= i && i + |p| <= |s| && Lower(s[i..i + |p|]) == p
  }

  predicate UrlAt(s: string, i: int)
  {
    PrefixAtCI(s, i, "http://") || PrefixAtCI(s, i, "https://")
  }

  /** `source_file.match /^https?:\/\//i`: decides between download and copy. */
  predicate IsUrl(s: string)
  {
    exists i :: 0 <= i <= |s| && LineStart(s, i) && UrlAt(s, i)
  }

  /** On a one-line descriptor the test is "starts with http:// or https://, in any case". */
  lemma {:induction false} IsUrlOneLine(s: string)
    requires '\n' !in s
    ensures IsUrl(s) <==> UrlAt(s, 0)
  {
    if IsUrl(s) {
      var i :| 0 <= i <= |s| && LineStart(s, i) && UrlAt(s, i);
      assert i == 0;
    }
    if UrlAt(s, 0) {
      assert LineStart(s, 0);
    }
  }

  /** Both schemes are recognised, in any letter case, whatever follows them. */
  lemma UrlExamples(rest: string)
    ensures IsUrl("http://" + rest)
    ensures IsUrl("HTTPS://" + rest)
  {
    var s1 := "http://" + rest;
    assert s1[0..7] == "http://";
    assert Lower(s1[0..7]) == "http://";
    assert LineStart(s1, 0) && UrlAt(s1, 0);
    var s2 := "HTTPS://" + rest;
    assert s2[0..8] == "HTTPS://";
    assert Lower(s2[0..8]) == "https://";
    assert LineStart(s2, 0) && UrlAt(s2, 0);
  }

  /** A URL prefix starts with `h` in either case and holds a colon. */
  lemma {:induction false} UrlAtShape(s: string)
    requires UrlAt(s, 0)
    ensures |s| > 0 && LowerChar(s[0]) == 'h' && ':' in s
  {
    var p := if PrefixAtCI(s, 0, "http://") then "http://" else "https://";
    assert Lower(s[0..|p|]) == p;
    assert LowerChar(s[0]) == p[0] == 'h';
    assert LowerChar(s[|p| - 3]) == p[|p| - 3] == ':';
    assert s[|p| - 3] == ':';
  }

  /** A one-line descriptor with no colon, such as a relative or absolute file path, is not
      a URL, and neither is one whose first letter is not `h` in either case: `get` copies
      both kinds. */
  lemma {:induction false} PathIsNotUrl(s: string)
    requires '\n' !in s
    requires ':' !in s || (|s| > 0 && LowerChar(s[0]) != 'h')
    ensures !IsUrl(s)
  {
    IsUrlOneLine(s);
    if UrlAt(s, 0) {
      UrlAtShape(s);
    }
  }

  /** The end of the run of word characters that starts at `j`. */
  function WordRunEnd(s: string, j: nat): (k: nat)
    requires j <= |s|
    ensures j <= k <= |s|
    ensures forall m :: j <= m < k ==> IsWordChar(s[m])
    ensures k < |s| ==> !IsWordChar(s[k])
    decreases |s| - j
  {
    if j < |s| && IsWordChar(s[j]) then WordRunEnd(s, j + 1) else j
  }

  /** `/(\.\w+)$/` matches with its match starting at `i`. Backtracking `\w+` to a shorter
      run cannot help: `$` would then face a word character. */
  predicate ExtensionAt(s: string, i: nat)
  {
    i < |s| && s[i] == '.' && WordRunEnd(s, i + 1) > i + 1 && LineEnd(s, WordRunEnd(s, i + 1))
  }

  /** The leftmost start position, at or after `i`, where the pattern matches. */
  function FirstExtension(s: string, i: nat): (r: Option<nat>)
    requires i <= |s|
    ensures r.None? ==> forall j :: i <= j < |s| ==> !ExtensionAt(s, j)
    ensures r.Some? ==> i <= r.value < |s| && ExtensionAt(s, r.value)
    ensures r.Some? ==> forall j :: i <= j < r.value ==> !ExtensionAt(s, j)
    decreases |s| - i
  {
    if i == |s| then None
    else if ExtensionAt(s, i) then Some(i)
    else FirstExtension(s, i + 1)
  }

  /** `$1` after `source_filename.match /(\.\w+)$/`, or nil when there is no match. */
  function CopyExtension(s: string): (r: Option<string>)
    ensures r.Some? ==> |r.value| >= 2 && r.value[0] == '.'
    ensures r.Some? ==> forall m :: 1 <= m < |r.value| ==> IsWordChar(r.value[m])
    ensures r.None? <==> forall j :: 0 <= j < |s| ==> !ExtensionAt(s, j)
  {
    match FirstExtension(s, 0)
    case None => None
    case Some(i) => Some(s[i..WordRunEnd(s, i + 1)])
  }

  /** A one-line path ending in `.<word>` yields exactly that final `.<word>`, however many
      other dots the path holds. */
  lemma {:induction false} ExtensionOfPath(p: string, w: string)
    requires '\n' !in p
    requires |w| > 0 && forall m :: 0 <= m < |w| ==> IsWordChar(w[m])
    ensures CopyExtension(p + "." + w) == Some("." + w)
  {
    var s := p + "." + w;
    var i0 := |p|;
    assert s[i0] == '.';
    assert forall m :: i0 + 1 <= m < |s| ==> s[m] == w[m - i0 - 1];
    assert WordRunEnd(s, i0 + 1) == |s|;
    assert ExtensionAt(s, i0);
    forall j | 0 <= j < i0
      ensures !ExtensionAt(s, j)
    {
      var k := WordRunEnd(s, j + 1);
      if s[j] == '.' && k > j + 1 {
        assert k <= i0;
        if k < i0 {
          assert s[k] == p[k] && p[k] in p;
        }
      }
    }
    var r := FirstExtension(s, 0);
    assert r == Some(i0);
    assert s[i0..|s|] == "." + w;
  }

  /** A descriptor without a dot has no extension, so `copy` passes nil on to `file`. */
  lemma NoDotNoExtension(s: string)
    requires '.' !in s
    ensures CopyExtension(s) == None
  {
    forall j | 0 <= j < |s| ensures !ExtensionAt(s, j) {
      assert s[j] in s;
    }
  }
}
