/**
 Model of the file-drop settings list kept by the preferences pane.

 A file-drop setting is a string-keyed dictionary of strings (its
 "extensions", "scope" and insertion-format entries); the pane works on an
 ordered list of them.  This module holds the pure parts: the filter that
 decides which settings are written back to the user defaults, and the
 removal of one row.
 */
module FileDropSettings {

  type Setting = map<string, string>

  /** The dictionary keys of a setting's extension list and syntax scope. */
  const ExtensionsKey: string := "extensions"
  const ScopeKey: string := "scope"

  /** The value stored under `key`, a missing key reading as "" (the
      `?? ""` of the source). */
  function Value(setting: Setting, key: string): string
  {
    if key in setting then setting[key] else []
  }

  /** A setting is worth saving when its extensions or its scope is
      non-empty: one of the two keys is present with a non-empty value, a
      missing key counting as empty. */
  predicate IsKept(setting: Setting)
  {
    Value(setting, ExtensionsKey) != [] || Value(setting, ScopeKey) != []
  }

  /** Editing any other entry of a setting, such as its insertion format,
      does not change whether it is saved. */
  lemma IsKeptIgnoresOtherKeys(setting: Setting, key: string, v: string)
    requires key != ExtensionsKey && key != ScopeKey
    ensures IsKept(setting[key := v]) == IsKept(setting)
  {
  }

  /** The list written back to the user defaults: the kept settings, in
      their order. */
  function SavedList(content: seq<Setting>): (r: seq<Setting>)
    ensures |r| <= |content|
    ensures forall k :: 0 <= k < |r| ==> IsKept(r[k])
    ensures forall k :: 0 <= k < |content| && IsKept(content[k]) ==> content[k] in r
    ensures forall x :: x in r ==> x in content
  {
    if content == [] then []
    else if IsKept(content[0]) then [content[0]] + SavedList(content[1..])
    else SavedList(content[1..])
  }

  /** The number of kept settings in `content`. */
  function KeptCount(content: seq<Setting>): nat
  {
    if content == [] then 0
    else (if IsKept(content[0]) then 1 else 0) + KeptCount(content[1..])
  }

  /** `r` is `c` with some elements left out, the others in their order. */
  predicate IsSubsequence(r: seq<Setting>, c: seq<Setting>)
  {
    if r == [] then true
    else if c == [] then false
    else (r[0] == c[0] && IsSubsequence(r[1..], c[1..])) || IsSubsequence(r, c[1..])
  }

  predicate AllKept(r: seq<Setting>)
  {
    forall k :: 0 <= k < |r| ==> IsKept(r[k])
  }

  // ---------------------------------------------------------------------
  // The saved list is the subsequence of kept settings

  lemma {:induction false} SavedListIsSubsequence(c: seq<Setting>)
    ensures IsSubsequence(SavedList(c), c)
    ensures |SavedList(c)| == KeptCount(c)
  {
    if c != [] {
      SavedListIsSubsequence(c[1..]);
      if IsKept(c[0]) {
        assert ([c[0]] + SavedList(c[1..]))[1..] == SavedList(c[1..]);
      } else {
        var r := SavedList(c[1..]);
        if r != [] {
          assert IsSubsequence(r, c[1..]);
        }
      }
    }
  }

  /** A subsequence of `c` made only of kept settings has at most as many
      elements as `c` has kept settings. */
  lemma {:induction false} KeptSubsequenceBound(r: seq<Setting>, c: seq<Setting>)
    requires IsSubsequence(r, c) && AllKept(r)
    ensures |r| <= KeptCount(c)
  {
    if r != [] {
      assert c != [];
      assert AllKept(r[1..]) by {
        forall k | 0 <= k < |r[1..]| ensures IsKept(r[1..][k]) {
          assert r[1..][k] == r[k + 1];
        }
      }
      if r[0] == c[0] && IsSubsequence(r[1..], c[1..]) {
        KeptSubsequenceBound(r[1..], c[1..]);
        assert IsKept(r[0]);
      } else {
        KeptSubsequenceBound(r, c[1..]);
      }
    }
  }

  /** Only the saved list is a subsequence of the content that holds every
      kept setting and nothing else: the saved list is determined by that
      description. */
  lemma {:induction false} SavedListUnique(r: seq<Setting>, c: seq<Setting>)
    requires IsSubsequence(r, c) && AllKept(r) && |r| == KeptCount(c)
    ensures r == SavedList(c)
  {
    if c == [] {
    } else if r == [] {
      SavedListIsSubsequence(c);
    } else {
      assert AllKept(r[1..]) by {
        forall k | 0 <= k < |r[1..]| ensures IsKept(r[1..][k]) {
          assert r[1..][k] == r[k + 1];
        }
      }
      if r[0] == c[0] && IsSubsequence(r[1..], c[1..]) {
        assert IsKept(c[0]);
        SavedListUnique(r[1..], c[1..]);
        assert [r[0]] + r[1..] == r;
      } else {
        KeptSubsequenceBound(r, c[1..]);
        if IsKept(c[0]) {
          assert false;
        }
        SavedListUnique(r, c[1..]);
      }
    }
  }

  lemma {:induction false} SavedListAppend(a: seq<Setting>, b: seq<Setting>)
    ensures SavedList(a + b) == SavedList(a) + SavedList(b)
  {
    if a == [] {
      assert a + b == b;
    } else {
      assert (a + b)[0] == a[0];
      assert (a + b)[1..] == a[1..] + b;
      SavedListAppend(a[1..], b);
    }
  }

  /** Content made only of kept settings is saved unchanged. */
  lemma {:induction false} SavedListOfKept(c: seq<Setting>)
    requires AllKept(c)
    ensures SavedList(c) == c
  {
    if c != [] {
      assert IsKept(c[0]);
      assert AllKept(c[1..]) by {
        forall k | 0 <= k < |c[1..]| ensures IsKept(c[1..][k]) {
          assert c[1..][k] == c[k + 1];
        }
      }
      SavedListOfKept(c[1..]);
      assert [c[0]] + c[1..] == c;
    }
  }

  /** Saving what was saved changes nothing. */
  lemma SavedListIdempotent(c: seq<Setting>)
    ensures SavedList(SavedList(c)) == SavedList(c)
  {
    SavedListOfKept(SavedList(c));
  }

  /** A freshly added row, an empty dictionary, is not saved: appending it
      leaves the saved list as it was. */
  lemma SavedListAppendEmptyRow(c: seq<Setting>)
    ensures !IsKept(map[])
    ensures SavedList(c + [map[]]) == SavedList(c)
  {
    SavedListAppend(c, [map[]]);
    assert SavedList([map[]]) == [];
  }

  // ---------------------------------------------------------------------
  // Removing one row

  /** `s` without its element at `row`. */
  function RemoveAt(s: seq<Setting>, row: nat): (r: seq<Setting>)
    requires row < |s|
    ensures |r| == |s| - 1
    ensures forall k :: 0 <= k < row ==> r[k] == s[k]
    ensures forall k :: row <= k < |r| ==> r[k] == s[k + 1]
    ensures multiset(r) + multiset{s[row]} == multiset(s)
  {
    assert s == s[..row] + [s[row]] + s[row + 1..];
    s[..row] + s[row + 1..]
  }

  /** Removing a row and inserting the setting back where it was restores the
      list. */
  lemma RemoveAtInverse(s: seq<Setting>, row: nat)
    requires row < |s|
    ensures RemoveAt(s, row)[..row] + [s[row]] + RemoveAt(s, row)[row..] == s
  {
    var r := RemoveAt(s, row);
    var t := r[..row] + [s[row]] + r[row..];
    assert |t| == |s|;
    forall k | 0 <= k < |s| ensures t[k] == s[k] {
      if k < row {
        assert t[k] == r[k];
      } else if k > row {
        assert t[k] == r[k - 1];
      }
    }
  }

  /** The saved list of a list with one setting `e` in the middle. */
  lemma SavedListAround(p: seq<Setting>, e: Setting, q: seq<Setting>)
    ensures !IsKept(e) ==> SavedList(p + [e] + q) == SavedList(p) + SavedList(q)
    ensures IsKept(e) ==> SavedList(p + [e] + q) == SavedList(p) + [e] + SavedList(q)
  {
    assert SavedList(p + [e] + q) == SavedList(p) + SavedList([e] + q) by {
      assert p + [e] + q == p + ([e] + q);
      SavedListAppend(p, [e] + q);
    }
    SavedListCons(e, q);
    if IsKept(e) {
      var a, b := SavedList(p), SavedList(q);
      assert a + ([e] + b) == a + [e] + b;
    }
  }

  /** The saved list of a list given as first setting and rest. */
  lemma SavedListCons(e: Setting, q: seq<Setting>)
    ensures IsKept(e) ==> SavedList([e] + q) == [e] + SavedList(q)
    ensures !IsKept(e) ==> SavedList([e] + q) == SavedList(q)
  {
    assert ([e] + q)[0] == e;
    assert ([e] + q)[1..] == q;
  }

  /** Deleting a row that is not saved leaves the saved list as it was;
      deleting a kept row removes exactly its entry from the saved list. */
  lemma SavedListAfterRemove(c: seq<Setting>, row: nat)
    requires row < |c|
    ensures !IsKept(c[row]) ==> SavedList(RemoveAt(c, row)) == SavedList(c)
    ensures IsKept(c[row]) ==>
      KeptCount(c[..row]) < |SavedList(c)| &&
      SavedList(RemoveAt(c, row)) == RemoveAt(SavedList(c), KeptCount(c[..row]))
  {
    var p, e, q := c[..row], c[row], c[row + 1..];
    assert c == p + [e] + q;
    assert RemoveAt(c, row) == p + q;
    SavedListAppend(p, q);
    SavedListAround(p, e, q);
    SavedListIsSubsequence(p);
    if IsKept(e) {
      var a, b := SavedList(p), SavedList(q);
      assert RemoveAt(a + [e] + b, |a|) == a + b by {
        assert (a + [e] + b)[..|a|] == a;
        assert (a + [e] + b)[|a| + 1..] == b;
      }
    }
  }
}
