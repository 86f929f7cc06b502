/**
 * The visible role catalogue of the AddUserRole widget and its search field.
 *
 * An empty query brings back the catalogue passed in as initialValues. A
 * non-empty query keeps the roles of the list currently shown whose display
 * name contains the query, ignoring case; when none does, the list shown stays
 * as it was. Because the filter runs over the list currently shown, and not
 * over the catalogue, consecutive searches can only narrow the view.
 */
module RoleSearch {
  import opened RoleText
  import opened RoleSelection

  predicate Matches(role: Role, query: string)
  {
    ContainsCI(role.displayName, query)
  }

  /** The roles of rs that match the query, in their order in rs. */
  function Filter(rs: seq<Role>, query: string): (r: seq<Role>)
    ensures |r| <= |rs|
    ensures forall i :: 0 <= i < |r| ==> Matches(r[i], query)
    decreases |rs|
  {
    if rs == [] then []
    else
      var last := rs[|rs| - 1];
      Filter(rs[..|rs| - 1], query) + (if Matches(last, query) then [last] else [])
  }

  /** a can be obtained from b by deleting elements. */
  ghost predicate IsSubsequence<T>(a: seq<T>, b: seq<T>)
    decreases |b|
  {
    a == [] ||
    (b != [] &&
     ((a[|a| - 1] == b[|b| - 1] && IsSubsequence(a[..|a| - 1], b[..|b| - 1])) ||
      IsSubsequence(a, b[..|b| - 1])))
  }

  /** handleSearchFieldChange: reset on an empty query, otherwise filter the current list if anything matches. */
  function SearchResult(current: seq<Role>, initialValues: seq<Role>, query: string): (r: seq<Role>)
    ensures |query| == 0 ==> r == initialValues
    ensures |query| > 0 ==> |r| <= |current|
    ensures |query| > 0 && r != current ==> r != [] && forall i :: 0 <= i < |r| ==> Matches(r[i], query)
  {
    if |query| == 0 then initialValues
    else
      var filtered := Filter(current, query);
      if filtered == [] then current else filtered
  }

  // ----------------------------------------------------------------- Filter

  /** A role is kept exactly when it is in the list and matches, and it is kept as often as it appears. */
  lemma {:induction false} FilterCounts(rs: seq<Role>, query: string, x: Role)
    ensures multiset(Filter(rs, query))[x] == if Matches(x, query) then multiset(rs)[x] else 0
    decreases |rs|
  {
    if rs != [] {
      var init := rs[..|rs| - 1];
      FilterCounts(init, query, x);
      assert rs == init + [rs[|rs| - 1]];
    }
  }

  /** Membership in the filtered list, both directions. */
  lemma FilterMembers(rs: seq<Role>, query: string, x: Role)
    ensures x in Filter(rs, query) <==> x in rs && Matches(x, query)
  {
    FilterCounts(rs, query, x);
    assert x in Filter(rs, query) <==> multiset(Filter(rs, query))[x] > 0;
    assert x in rs <==> multiset(rs)[x] > 0;
  }

  lemma {:induction false} SubsequenceAppend<T>(a: seq<T>, b: seq<T>, x: T)
    requires IsSubsequence(a, b)
    ensures IsSubsequence(a + [x], b + [x])
    ensures IsSubsequence(a, b + [x])
  {
    assert (a + [x])[..|a + [x]| - 1] == a;
    assert (b + [x])[..|b + [x]| - 1] == b;
  }

  /** The filtered list is a subsequence of the list it was filtered from. */
  lemma {:induction false} FilterIsSubsequence(rs: seq<Role>, query: string)
    ensures IsSubsequence(Filter(rs, query), rs)
    decreases |rs|
  {
    if rs != [] {
      var init := rs[..|rs| - 1];
      var last := rs[|rs| - 1];
      FilterIsSubsequence(init, query);
      assert rs == init + [last];
      SubsequenceAppend(Filter(init, query), init, last);
      if Matches(last, query) {
        assert Filter(rs, query) == Filter(init, query) + [last];
      } else {
        assert Filter(rs, query) == Filter(init, query);
      }
    }
  }

  /** Filtering twice with the same query filters once. */
  lemma {:induction false} FilterIdempotent(rs: seq<Role>, query: string)
    ensures Filter(Filter(rs, query), query) == Filter(rs, query)
    decreases |rs|
  {
    if rs != [] {
      var init := rs[..|rs| - 1];
      var last := rs[|rs| - 1];
      FilterIdempotent(init, query);
      FilterAppend(Filter(init, query), if Matches(last, query) then [last] else [], query);
    }
  }

  lemma {:induction false} FilterAppend(a: seq<Role>, b: seq<Role>, query: string)
    ensures Filter(a + b, query) == Filter(a, query) + Filter(b, query)
    decreases |b|
  {
    if b == [] {
      assert a + b == a;
    } else {
      var binit := b[..|b| - 1];
      FilterAppend(a, binit, query);
      assert (a + b)[..|a + b| - 1] == a + binit;
    }
  }

  /** Nothing in the list matches exactly when the filter keeps nothing. */
  lemma FilterEmptyIff(rs: seq<Role>, query: string)
    ensures Filter(rs, query) == [] <==> forall i :: 0 <= i < |rs| ==> !Matches(rs[i], query)
  {
    if Filter(rs, query) != [] {
      var x := Filter(rs, query)[0];
      FilterMembers(rs, query, x);
    }
    if exists i :: 0 <= i < |rs| && Matches(rs[i], query) {
      var i :| 0 <= i < |rs| && Matches(rs[i], query);
      FilterMembers(rs, query, rs[i]);
    }
  }

  // ---------------------------------------------------------- IsSubsequence

  /** Deleting elements twice is deleting elements. */
  lemma {:induction false} SubsequenceTransitive<T>(a: seq<T>, b: seq<T>, c: seq<T>)
    requires IsSubsequence(a, b) && IsSubsequence(b, c)
    ensures IsSubsequence(a, c)
    decreases |c|
  {
    if a != [] {
      var c' := c[..|c| - 1];
      if b[|b| - 1] == c[|c| - 1] && IsSubsequence(b[..|b| - 1], c') {
        var b' := b[..|b| - 1];
        if a[|a| - 1] == b[|b| - 1] && IsSubsequence(a[..|a| - 1], b') {
          SubsequenceTransitive(a[..|a| - 1], b', c');
        } else {
          SubsequenceTransitive(a, b', c');
          SubsequenceAppend(a, c', c[|c| - 1]);
          assert c' + [c[|c| - 1]] == c;
        }
      } else {
        SubsequenceTransitive(a, b, c');
        SubsequenceAppend(a, c', c[|c| - 1]);
        assert c' + [c[|c| - 1]] == c;
      }
    }
  }

  lemma {:induction false} SubsequenceReflexive<T>(a: seq<T>)
    ensures IsSubsequence(a, a)
    decreases |a|
  {
    if a != [] {
      SubsequenceReflexive(a[..|a| - 1]);
    }
  }

  // ------------------------------------------------------------------ Search

  /** An empty query shows the initialValues catalogue again, whatever was shown before. */
  lemma EmptySearchResets(current: seq<Role>, initialValues: seq<Role>)
    ensures SearchResult(current, initialValues, "") == initialValues
  {
  }

  /**
   * A non-empty query filters the list currently shown: when some role there
   * matches, the result is exactly the matching roles in their order; when
   * none does, the list stays unchanged. Either way the result is a
   * subsequence of what was shown.
   */
  lemma SearchFiltersCurrent(current: seq<Role>, initialValues: seq<Role>, query: string)
    requires |query| > 0
    ensures var r := SearchResult(current, initialValues, query);
      ((exists i :: 0 <= i < |current| && Matches(current[i], query)) ==> r == Filter(current, query)) &&
      ((forall i :: 0 <= i < |current| ==> !Matches(current[i], query)) ==> r == current) &&
      IsSubsequence(r, current)
  {
    FilterEmptyIff(current, query);
    FilterIsSubsequence(current, query);
    SubsequenceReflexive(current);
  }

  /** A sequence of keystrokes in the search field, applied in order. */
  function SearchAll(current: seq<Role>, initialValues: seq<Role>, queries: seq<string>): seq<Role>
    decreases |queries|
  {
    if queries == [] then current
    else SearchAll(SearchResult(current, initialValues, queries[0]), initialValues, queries[1..])
  }

  /** Without an empty query in between, searches only ever narrow the list shown. */
  lemma {:induction false} SearchesOnlyNarrow(current: seq<Role>, initialValues: seq<Role>, queries: seq<string>)
    requires forall i :: 0 <= i < |queries| ==> |queries[i]| > 0
    ensures IsSubsequence(SearchAll(current, initialValues, queries), current)
    decreases |queries|
  {
    if queries == [] {
      SubsequenceReflexive(current);
    } else {
      var next := SearchResult(current, initialValues, queries[0]);
      SearchFiltersCurrent(current, initialValues, queries[0]);
      SearchesOnlyNarrow(next, initialValues, queries[1..]);
      SubsequenceTransitive(SearchAll(next, initialValues, queries[1..]), next, current);
    }
  }

  /** One keystroke keeps the list shown inside the catalogue: a reset shows it whole, a filter drops entries. */
  lemma SearchStaysInCatalogue(current: seq<Role>, initialValues: seq<Role>, query: string)
    requires IsSubsequence(current, initialValues)
    ensures IsSubsequence(SearchResult(current, initialValues, query), initialValues)
  {
    if |query| == 0 {
      SubsequenceReflexive(initialValues);
    } else {
      SearchFiltersCurrent(current, initialValues, query);
      SubsequenceTransitive(SearchResult(current, initialValues, query), current, initialValues);
    }
  }

  /** Any run of keystrokes, resets and filters mixed, keeps the list shown derived from the catalogue by deletion. */
  lemma {:induction false} SearchAllStaysInCatalogue(current: seq<Role>, initialValues: seq<Role>, queries: seq<string>)
    requires IsSubsequence(current, initialValues)
    ensures IsSubsequence(SearchAll(current, initialValues, queries), initialValues)
    decreases |queries|
  {
    if queries != [] {
      SearchStaysInCatalogue(current, initialValues, queries[0]);
      SearchAllStaysInCatalogue(SearchResult(current, initialValues, queries[0]), initialValues, queries[1..]);
    }
  }

  /** The same non-empty query typed again leaves the list shown as it is. */
  lemma RepeatedSearchIsStable(current: seq<Role>, initialValues: seq<Role>, query: string)
    requires |query| > 0
    ensures var once := SearchResult(current, initialValues, query);
      SearchResult(once, initialValues, query) == once
  {
    FilterIdempotent(current, query);
  }

  /** The filter over a two-role list, spelled out. */
  lemma FilterPair(x: Role, y: Role, query: string)
    ensures Filter([x], query) == if Matches(x, query) then [x] else []
    ensures Filter([x, y], query) == Filter([x], query) + if Matches(y, query) then [y] else []
  {
    assert [x][..0] == [];
    assert [x, y][..1] == [x];
  }

  lemma AdminFacts()
    ensures Matches(Role("1", "Admin"), "adm")
    ensures !Matches(Role("1", "Admin"), "view")
  {
    assert MatchesAt("Admin", "adm", 0);
    assert !MatchesAt("Admin", "view", 0) by { assert Lower("Admin"[0]) != Lower("view"[0]); }
    assert "Admin"[1..] == "dmin";
    assert !MatchesAt("dmin", "view", 0) by { assert Lower("dmin"[0]) != Lower("view"[0]); }
    assert !ContainsCI("min", "view");
  }

  lemma ViewerFacts()
    ensures Matches(Role("2", "Viewer"), "view")
    ensures !Matches(Role("2", "Viewer"), "adm")
  {
    assert MatchesAt("Viewer", "view", 0);
    assert "Viewer"[1..] == "iewer" && "iewer"[1..] == "ewer" && "ewer"[1..] == "wer";
    assert !MatchesAt("Viewer", "adm", 0) by { assert Lower("Viewer"[0]) != Lower("adm"[0]); }
    assert !MatchesAt("iewer", "adm", 0) by { assert Lower("iewer"[0]) != Lower("adm"[0]); }
    assert !MatchesAt("ewer", "adm", 0) by { assert Lower("ewer"[0]) != Lower("adm"[0]); }
    assert !MatchesAt("wer", "adm", 0) by { assert Lower("wer"[0]) != Lower("adm"[0]); }
    assert !ContainsCI("er", "adm");
  }

  lemma FilterAdm()
    ensures Filter([Role("1", "Admin"), Role("2", "Viewer")], "adm") == [Role("1", "Admin")]
  {
    AdminFacts();
    ViewerFacts();
    FilterPair(Role("1", "Admin"), Role("2", "Viewer"), "adm");
  }

  lemma FilterView()
    ensures Filter([Role("1", "Admin"), Role("2", "Viewer")], "view") == [Role("2", "Viewer")]
    ensures Filter([Role("1", "Admin")], "view") == []
  {
    AdminFacts();
    ViewerFacts();
    FilterPair(Role("1", "Admin"), Role("2", "Viewer"), "view");
  }

  /**
   * Searching cannot widen: with roles Admin and Viewer mounted, searching
   * "adm" shows only Admin, and a following search for "view" matches nothing
   * in that list, so Viewer stays hidden until the query is cleared.
   */
  lemma NarrowedSearchHidesCatalogue()
    ensures var catalogue := [Role("1", "Admin"), Role("2", "Viewer")];
      var afterAdm := SearchResult(catalogue, catalogue, "adm");
      afterAdm == [Role("1", "Admin")] &&
      SearchResult(afterAdm, catalogue, "view") == [Role("1", "Admin")] &&
      SearchResult(catalogue, catalogue, "view") == [Role("2", "Viewer")]
  {
    FilterAdm();
    FilterView();
  }
}
