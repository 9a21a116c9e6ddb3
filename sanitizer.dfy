/**
 Model of the extension-string sanitiser of the file-drop preferences pane.

 The pane cleans what the user types into the "extensions" column: the text
 is cut at every separator or typically invalid character, empty pieces are
 dropped, and what is left is joined again with ", ".  Strings are modelled
 as sequences of characters; the character set is a fixed set of eight
 characters.
 */
module ExtensionSanitizer {

  /** The characters the input is cut at: comma, space, period, slash,
      backslash, tab, carriage return and line feed. */
  const TrimSet: set<char> := {',', ' ', '.', '/', '\\', '\t', '\r', '\n'}

  /** The separator the cleaned list is joined with. */
  const Separator: string := ", "

  /** The characters that never survive sanitising, even as part of
      a separator. */
  const Forbidden: set<char> := {'.', '/', '\\', '\t', '\r', '\n'}

  /** `s` holds no character of the trim set. */
  predicate NoTrim(s: string)
  {
    forall i :: 0 <= i < |s| ==> s[i] !in TrimSet
  }

  /** A token: a non-empty run of non-trim characters. */
  predicate IsToken(t: string)
  {
    t != [] && NoTrim(t)
  }

  predicate AllTokens(ts: seq<string>)
  {
    forall k :: 0 <= k < |ts| ==> IsToken(ts[k])
  }

  /** `s` with every trim character removed. */
  function Strip(s: string): string
  {
    if s == [] then []
    else if s[0] in TrimSet then Strip(s[1..])
    else [s[0]] + Strip(s[1..])
  }

  /** The trim characters of `s`, in order. */
  function Separators(s: string): (r: string)
    ensures forall i :: 0 <= i < |r| ==> r[i] in TrimSet
  {
    if s == [] then []
    else if s[0] in TrimSet then [s[0]] + Separators(s[1..])
    else Separators(s[1..])
  }

  /** Concatenation of a list of strings. */
  function Flatten(ps: seq<string>): string
  {
    if ps == [] then [] else ps[0] + Flatten(ps[1..])
  }

  /** Splitting at every character of a character set: the pieces between
      consecutive separator characters, including empty ones; an input with
      n separator characters gives n + 1 pieces, so "" gives [""]. */
  function Components(s: string): (r: seq<string>)
    ensures |r| == |Separators(s)| + 1
    ensures forall k :: 0 <= k < |r| ==> NoTrim(r[k])
    ensures Flatten(r) == Strip(s)
  {
    if s == [] then [[]]
    else
      var rest := Components(s[1..]);
      if s[0] in TrimSet then [[]] + rest
      else
        assert Flatten([[s[0]] + rest[0]] + rest[1..]) == [s[0]] + Flatten(rest) by {
          assert rest == [rest[0]] + rest[1..];
          assert ([[s[0]] + rest[0]] + rest[1..])[1..] == rest[1..];
        }
        [[s[0]] + rest[0]] + rest[1..]
  }

  /** The inverse of Components: the pieces put back together with the
      separator characters between them. */
  function Weave(ps: seq<string>, cs: string): string
    requires |ps| == |cs| + 1
  {
    if cs == [] then ps[0] else ps[0] + [cs[0]] + Weave(ps[1..], cs[1..])
  }

  /** The non-empty elements of `ps`, in order. */
  function NonEmpty(ps: seq<string>): (r: seq<string>)
    ensures forall k :: 0 <= k < |r| ==> r[k] != [] && r[k] in ps
    ensures Flatten(r) == Flatten(ps)
  {
    if ps == [] then []
    else if ps[0] == [] then NonEmpty(ps[1..])
    else [ps[0]] + NonEmpty(ps[1..])
  }

  /** Joining a list of strings with a separator; the empty list gives "",
      a single piece is returned as it is, and no piece is longer than the
      result.  SplitJoin and ComponentsOfJoin show that the pieces can be
      read back from the result. */
  function Join(ps: seq<string>, sep: string): (r: string)
    ensures ps == [] ==> r == []
    ensures |ps| == 1 ==> r == ps[0]
    ensures forall k :: 0 <= k < |ps| ==> |ps[k]| <= |r|
  {
    if ps == [] then []
    else if |ps| == 1 then ps[0]
    else ps[0] + sep + Join(ps[1..], sep)
  }

  /** Splitting at every occurrence of the two-character separator ", ",
      scanning from the left; "" gives [""]. */
  function SplitAtSeparator(s: string): (r: seq<string>)
    ensures |r| >= 1
  {
    if s == [] then [[]]
    else if |s| >= 2 && s[..2] == Separator then [[]] + SplitAtSeparator(s[2..])
    else
      var rest := SplitAtSeparator(s[1..]);
      [[s[0]] + rest[0]] + rest[1..]
  }

  /** The pieces the sanitiser keeps: exactly the maximal runs of non-trim
      characters, in input order, as the single-pass scanner defines them;
      each is a token, and together they spell the input without its trim
      characters. */
  function Tokens(s: string): (r: seq<string>)
    ensures r == Runs(s)
    ensures AllTokens(r)
    ensures Flatten(r) == Strip(s)
  {
    var cs := Components(s);
    ScanComponents(s, []);
    var none: string := [];
    assert none + cs[0] == cs[0];
    assert [cs[0]] + cs[1..] == cs;
    NonEmpty(cs)
  }

  /** The sanitiser: split at the trim set, drop empty pieces, join with
      ", ".  The result is the input's maximal runs of non-trim characters
      joined with ", ". */
  function Sanitize(s: string): (r: string)
    ensures r == Join(Runs(s), Separator)
  {
    Join(Tokens(s), Separator)
  }

  /** An independent, single-pass definition of the maximal runs of non-trim
      characters: `cur` is the run being read.  A run ends at a trim
      character or at the end of the input and is emitted only when it is
      non-empty. */
  function Scan(s: string, cur: string): seq<string>
  {
    if s == [] then (if cur == [] then [] else [cur])
    else if s[0] in TrimSet then (if cur == [] then [] else [cur]) + Scan(s[1..], [])
    else Scan(s[1..], cur + [s[0]])
  }

  function Runs(s: string): seq<string>
  {
    Scan(s, [])
  }

  // ---------------------------------------------------------------------
  // Lemmas about splitting at the trim set

  lemma {:induction false} ComponentsOfTrimFree(x: string)
    requires NoTrim(x)
    ensures Components(x) == [x]
  {
    if x != [] {
      assert x[0] !in TrimSet;
      ComponentsOfTrimFree(x[1..]);
      assert [x[0]] + x[1..] == x;
    }
  }

  /** Splitting distributes over a separator character. */
  lemma {:induction false} ComponentsAtSeparator(x: string, c: char, y: string)
    requires c in TrimSet
    ensures Components(x + [c] + y) == Components(x) + Components(y)
  {
    if x == [] {
      assert x + [c] + y == [c] + y;
      ComponentsCons(c, y);
    } else {
      var a, t := x[0], x[1..];
      assert x == [a] + t;
      ComponentsAtSeparator(t, c, y);
      assert t + [c] + y == t + ([c] + y);
      ComponentsConsStep(a, t, [c] + y, Components(y));
      assert x + [c] + y == [a] + t + ([c] + y);
    }
  }

  /** The inductive step of ComponentsAtSeparator: a leading character joins
      the first piece or opens a new one on both sides alike. */
  lemma ComponentsConsStep(a: char, t: string, z: string, cz: seq<string>)
    requires Components(t + z) == Components(t) + cz
    ensures Components([a] + t + z) == Components([a] + t) + cz
  {
    assert [a] + t + z == [a] + (t + z);
    ComponentsCons(a, t + z);
    ComponentsCons(a, t);
    var ct := Components(t);
    if a in TrimSet {
      assert [[]] + (ct + cz) == ([[]] + ct) + cz;
    } else {
      ExtendFirstPiece(a, ct, cz);
    }
  }

  /** One step of Components on an input given as first character and rest. */
  lemma ComponentsCons(a: char, t: string)
    ensures a in TrimSet ==> Components([a] + t) == [[]] + Components(t)
    ensures a !in TrimSet ==>
      Components([a] + t) == [[a] + Components(t)[0]] + Components(t)[1..]
  {
    assert ([a] + t)[0] == a;
    assert ([a] + t)[1..] == t;
  }

  /** Extending the first piece of a concatenation of piece lists extends
      the first piece of the first list. */
  lemma ExtendFirstPiece(a: char, cx: seq<string>, cy: seq<string>)
    requires cx != []
    ensures [[a] + (cx + cy)[0]] + (cx + cy)[1..] == ([[a] + cx[0]] + cx[1..]) + cy
  {
    assert (cx + cy)[0] == cx[0];
    assert (cx + cy)[1..] == cx[1..] + cy;
  }

  /** Weaving the pieces back in with the original separator characters
      gives the input back. */
  lemma {:induction false} WeaveComponents(s: string)
    ensures Weave(Components(s), Separators(s)) == s
  {
    if s != [] {
      WeaveComponents(s[1..]);
      var rest := Components(s[1..]);
      var seps := Separators(s[1..]);
      if s[0] in TrimSet {
        assert ([[]] + rest)[1..] == rest;
        assert [s[0]] + s[1..] == s;
      } else {
        var ps := [[s[0]] + rest[0]] + rest[1..];
        assert ps[1..] == rest[1..];
        if seps == [] {
          assert [s[0]] + s[1..] == s;
        } else {
          assert rest == [rest[0]] + rest[1..];
          assert Weave(ps, seps) == [s[0]] + Weave(rest, seps);
          assert [s[0]] + s[1..] == s;
        }
      }
    }
  }

  /** Splitting a weave of trim-free pieces gives the pieces back. */
  lemma {:induction false} ComponentsOfWeave(ps: seq<string>, cs: string)
    requires |ps| == |cs| + 1
    requires forall k :: 0 <= k < |ps| ==> NoTrim(ps[k])
    requires forall i :: 0 <= i < |cs| ==> cs[i] in TrimSet
    ensures Components(Weave(ps, cs)) == ps
  {
    if cs == [] {
      ComponentsOfTrimFree(ps[0]);
    } else {
      ComponentsAtSeparator(ps[0], cs[0], Weave(ps[1..], cs[1..]));
      ComponentsOfTrimFree(ps[0]);
      ComponentsOfWeave(ps[1..], cs[1..]);
      assert [ps[0]] + ps[1..] == ps;
    }
  }

  /** Stripping leaves nothing exactly when every character is a trim
      character. */
  lemma {:induction false} StripEmpty(s: string)
    ensures Strip(s) == [] <==> forall i :: 0 <= i < |s| ==> s[i] in TrimSet
  {
    if s != [] {
      StripEmpty(s[1..]);
      assert forall i :: 1 <= i < |s| ==> s[i] == s[1..][i - 1];
    }
  }

  lemma {:induction false} NonEmptyAppend(a: seq<string>, b: seq<string>)
    ensures NonEmpty(a + b) == NonEmpty(a) + NonEmpty(b)
  {
    if a != [] {
      assert (a + b)[0] == a[0];
      assert (a + b)[1..] == a[1..] + b;
      NonEmptyAppend(a[1..], b);
    } else {
      assert a + b == b;
    }
  }

  lemma {:induction false} NonEmptyOfNonEmpty(ts: seq<string>)
    requires forall k :: 0 <= k < |ts| ==> ts[k] != []
    ensures NonEmpty(ts) == ts
  {
    if ts != [] {
      NonEmptyOfNonEmpty(ts[1..]);
      assert [ts[0]] + ts[1..] == ts;
    }
  }

  /** The tokens are exactly the maximal runs of non-trim characters, in
      their original order: the split-and-filter pipeline agrees with the
      single-pass scanner. */
  lemma {:induction false} ScanComponents(s: string, cur: string)
    ensures Scan(s, cur) == NonEmpty([cur + Components(s)[0]] + Components(s)[1..])
  {
    if s == [] {
      assert cur + [] == cur;
    } else {
      var rest := Components(s[1..]);
      if s[0] in TrimSet {
        ScanComponents(s[1..], []);
        assert [] + rest[0] == rest[0];
        assert [rest[0]] + rest[1..] == rest;
        var cs := Components(s);
        assert cs == [[]] + rest;
        assert cs[0] == [] && cs[1..] == rest;
        assert cur + [] == cur;
        NonEmptyAppend([cur], rest);
      } else {
        ScanComponents(s[1..], cur + [s[0]]);
        assert cur + ([s[0]] + rest[0]) == (cur + [s[0]]) + rest[0];
      }
    }
  }

  // ---------------------------------------------------------------------
  // Lemmas about joining with ", "

  /** The joined list is empty exactly when there are no tokens; otherwise
      it neither starts nor ends with a trim character, and every comma is
      followed by a space and every space preceded by a comma, so the trim
      characters that remain are exactly those of the separators. */
  lemma {:induction false} JoinShape(ts: seq<string>)
    requires AllTokens(ts)
    ensures Join(ts, Separator) == [] <==> ts == []
    ensures ts != [] ==> Join(ts, Separator)[0] !in TrimSet
    ensures ts != [] ==> Join(ts, Separator)[|Join(ts, Separator)| - 1] !in TrimSet
    ensures SeparatorShaped(Join(ts, Separator))
  {
    if |ts| == 1 {
      assert IsToken(ts[0]);
    } else if |ts| > 1 {
      var t := ts[0];
      assert IsToken(t);
      var j := Join(ts[1..], Separator);
      assert AllTokens(ts[1..]) by {
        forall k | 0 <= k < |ts[1..]| ensures IsToken(ts[1..][k]) {
          assert ts[1..][k] == ts[k + 1];
        }
      }
      JoinShape(ts[1..]);
      var r := Join(ts, Separator);
      assert r == t + Separator + j;
      assert |r| == |t| + 2 + |j|;
      forall i | 0 <= i < |r|
        ensures r[i] in TrimSet ==>
          (r[i] == ',' && i + 1 < |r| && r[i + 1] == ' ') || (r[i] == ' ' && 0 < i && r[i - 1] == ',')
      {
        if i < |t| {
          assert r[i] == t[i] && t[i] !in TrimSet;
        } else if i == |t| {
          assert r[i] == ',' && r[i + 1] == ' ';
        } else if i == |t| + 1 {
          assert r[i] == ' ' && r[i - 1] == ',';
        } else {
          var k := i - |t| - 2;
          assert r[i] == j[k];
          if j[k] == ',' {
            assert r[i + 1] == j[k + 1];
          } else if j[k] == ' ' {
            assert r[i - 1] == j[k - 1];
          }
        }
      }
      assert r[0] == t[0];
      assert r[|r| - 1] == j[|j| - 1];
    }
  }

  /** The trim characters of `r` are all commas directly followed by a
      space, or spaces directly preceded by a comma. */
  predicate SeparatorShaped(r: string)
  {
    forall i {:trigger r[i]} :: 0 <= i < |r| && r[i] in TrimSet ==>
      (r[i] == ',' && i + 1 < |r| && r[i + 1] == ' ') || (r[i] == ' ' && 0 < i && r[i - 1] == ',')
  }

  lemma {:induction false} ComponentsOfJoin(ts: seq<string>)
    requires AllTokens(ts)
    ensures Tokens(Join(ts, Separator)) == ts
  {
    if ts == [] {
    } else if |ts| == 1 {
      ComponentsOfTrimFree(ts[0]);
    } else {
      var t := ts[0];
      var j := Join(ts[1..], Separator);
      assert AllTokens(ts[1..]) by {
        forall k | 0 <= k < |ts[1..]| ensures IsToken(ts[1..][k]) {
          assert ts[1..][k] == ts[k + 1];
        }
      }
      assert t + Separator + j == t + [','] + ([] + [' '] + j);
      ComponentsAtSeparator(t, ',', [] + [' '] + j);
      ComponentsAtSeparator([], ' ', j);
      assert [] + [' '] + j == [' '] + j;
      ComponentsOfTrimFree(t);
      assert Components(t + Separator + j) == [t] + [[]] + Components(j);
      NonEmptyAppend([t] + [[]], Components(j));
      NonEmptyAppend([t], [[]]);
      ComponentsOfJoin(ts[1..]);
      assert [t] + ts[1..] == ts;
    }
  }

  lemma {:induction false} SplitAtSeparatorOfTrimFree(x: string)
    requires NoTrim(x)
    ensures SplitAtSeparator(x) == [x]
  {
    if x != [] {
      assert x[0] != ',';
      SplitAtSeparatorOfTrimFree(x[1..]);
      assert [x[0]] + x[1..] == x;
    }
  }

  lemma {:induction false} SplitAtSeparatorStep(x: string, y: string)
    requires NoTrim(x)
    ensures SplitAtSeparator(x + Separator + y) == [x] + SplitAtSeparator(y)
  {
    var s := x + Separator + y;
    if x == [] {
      assert s == Separator + y;
      assert s[..2] == Separator;
      assert s[2..] == y;
    } else {
      assert s[0] == x[0] && x[0] != ',';
      assert s[1..] == x[1..] + Separator + y;
      SplitAtSeparatorStep(x[1..], y);
      assert [x[0]] + x[1..] == x;
    }
  }

  lemma {:induction false} SplitJoin(ts: seq<string>)
    requires ts != [] && AllTokens(ts)
    ensures SplitAtSeparator(Join(ts, Separator)) == ts
  {
    if |ts| == 1 {
      SplitAtSeparatorOfTrimFree(ts[0]);
    } else {
      assert IsToken(ts[0]);
      assert AllTokens(ts[1..]) by {
        forall k | 0 <= k < |ts[1..]| ensures IsToken(ts[1..][k]) {
          assert ts[1..][k] == ts[k + 1];
        }
      }
      SplitAtSeparatorStep(ts[0], Join(ts[1..], Separator));
      SplitJoin(ts[1..]);
      assert [ts[0]] + ts[1..] == ts;
    }
  }

  // ---------------------------------------------------------------------
  // What the sanitiser promises

  /** The output holds no period, slash, backslash, tab, carriage return or
      line feed; commas and spaces occur only as the two halves of ", ";
      and it neither starts nor ends with a trim character. */
  lemma SanitizeShape(s: string)
    ensures forall i :: 0 <= i < |Sanitize(s)| ==> Sanitize(s)[i] !in Forbidden
    ensures SeparatorShaped(Sanitize(s))
    ensures Sanitize(s) != [] ==> Sanitize(s)[0] !in TrimSet && Sanitize(s)[|Sanitize(s)| - 1] !in TrimSet
  {
    JoinShape(Tokens(s));
    var r := Sanitize(s);
    assert Forbidden <= TrimSet;
    forall i | 0 <= i < |r| ensures r[i] !in Forbidden {
      assert r[i] in TrimSet ==> r[i] == ',' || r[i] == ' ';
    }
  }

  /** The output is empty exactly when the input holds no character outside
      the trim set (in particular for the empty input). */
  lemma SanitizeEmpty(s: string)
    ensures Sanitize(s) == [] <==> forall i :: 0 <= i < |s| ==> s[i] in TrimSet
  {
    StripEmpty(s);
    JoinShape(Tokens(s));
    if Tokens(s) != [] {
      assert Tokens(s)[0] != [];
      assert Flatten(Tokens(s)) == Tokens(s)[0] + Flatten(Tokens(s)[1..]);
    }
  }

  /** Splitting a non-empty output at ", " gives exactly the maximal runs of
      non-trim characters of the input, in order. */
  lemma SanitizeSplit(s: string)
    requires Sanitize(s) != []
    ensures SplitAtSeparator(Sanitize(s)) == Runs(s)
  {
    SplitJoin(Tokens(s));
  }

  /** Sanitising twice is the same as sanitising once. */
  lemma SanitizeIdempotent(s: string)
    ensures Sanitize(Sanitize(s)) == Sanitize(s)
  {
    ComponentsOfJoin(Tokens(s));
  }

  /** A CR LF pair cuts like two separators. */
  lemma SanitizeCrLf()
    ensures Sanitize("a\r\nb") == "a, b"
  {
    assert "b"[1..] == "" && "" + ['b'] == "b";
    assert Scan("", "b") == ["b"];
    assert Scan("b", "") == ["b"];
    assert "\nb"[1..] == "b";
    assert Scan("\nb", "") == ["b"];
    assert "\r\nb"[1..] == "\nb";
    assert Scan("\r\nb", "a") == ["a", "b"];
    assert "a\r\nb"[1..] == "\r\nb" && "" + ['a'] == "a";
    assert Runs("a\r\nb") == ["a", "b"];
    assert ["a", "b"][1..] == ["b"];
    assert Join(["a", "b"], Separator) == "a, b";
  }

  /** The scanner on the tail of the path fragment below. */
  lemma ScanFragmentTail()
    ensures Scan(", md ", "txt") == ["txt", "md"]
  {
    assert " "[1..] == "" && Scan("", "") == [];
    assert Scan(" ", "md") == ["md"];
    assert "d "[1..] == " " && "m" + ['d'] == "md";
    assert Scan("d ", "m") == ["md"];
    assert "md "[1..] == "d " && "" + ['m'] == "m";
    assert Scan("md ", "") == ["md"];
    assert " md "[1..] == "md ";
    assert Scan(" md ", "") == ["md"];
    assert ", md "[1..] == " md ";
  }

  /** The scanner on the whole path fragment below. */
  lemma RunsOfFragment()
    ensures Runs(" .txt, md ") == ["txt", "md"]
  {
    ScanFragmentTail();
    assert "t, md "[1..] == ", md " && "tx" + ['t'] == "txt";
    assert Scan("t, md ", "tx") == ["txt", "md"];
    assert "xt, md "[1..] == "t, md " && "t" + ['x'] == "tx";
    assert Scan("xt, md ", "t") == ["txt", "md"];
    assert "txt, md "[1..] == "xt, md " && "" + ['t'] == "t";
    assert Scan("txt, md ", "") == ["txt", "md"];
    assert ".txt, md "[1..] == "txt, md ";
    assert Scan(".txt, md ", "") == ["txt", "md"];
    assert " .txt, md "[1..] == ".txt, md ";
  }

  /** A leading space and period, a comma and a trailing space leave only
      the extensions. */
  lemma SanitizePathFragment()
    ensures Sanitize(" .txt, md ") == "txt, md"
  {
    RunsOfFragment();
    assert ["txt", "md"][1..] == ["md"];
    assert Join(["txt", "md"], Separator) == "txt, md";
  }
}
