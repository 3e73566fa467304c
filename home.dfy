/** The in-browser half of the page (`Home`): the list of technologies, the
    selection the filter buttons toggle, the split of the projects into the
    filtered ones and the others, and the number of projects per technology.
    State hooks and rendering are not modelled; the selection is a value that
    `Toggle` maps to its successor. */
module Home {
  import opened JsString
  import opened Collation
  import opened StaticProps

  /** `projects.flatMap((project) => project.technologies)`. */
  function AllTechnologies(ps: seq<Project>): seq<string>
  {
    if ps == [] then [] else ps[0].technologies + AllTechnologies(ps[1..])
  }

  /** Some project lists `t` among its technologies. */
  predicate UsedBySome(ps: seq<Project>, t: string) {
    exists i :: 0 <= i < |ps| && t in ps[i].technologies
  }

  lemma {:induction false} AllTechnologiesMembers(ps: seq<Project>, t: string)
    ensures t in AllTechnologies(ps) <==> UsedBySome(ps, t)
  {
    if ps != [] {
      AllTechnologiesMembers(ps[1..], t);
      if UsedBySome(ps[1..], t) {
        var i :| 0 <= i < |ps[1..]| && t in ps[1..][i].technologies;
        assert t in ps[i + 1].technologies;
      }
      if UsedBySome(ps, t) {
        var i :| 0 <= i < |ps| && t in ps[i].technologies;
        if i > 0 {
          assert t in ps[1..][i - 1].technologies;
        }
      }
    }
  }

  /** `[...new Set(allTechnologies)].sort((a, b) =>
      a.toLowerCase().localeCompare(b.toLowerCase()))`. */
  function TechSet(ps: seq<Project>, le: (string, string) -> bool): seq<string>
  {
    SortByKey(Dedup(AllTechnologies(ps)), ToLower, le)
  }

  /** The technology list names every technology some project uses, nothing
      else, and each one once. */
  lemma TechSetDistinctAndComplete(ps: seq<Project>, le: (string, string) -> bool)
    ensures NoDuplicates(TechSet(ps, le))
    ensures forall t :: t in TechSet(ps, le) <==> UsedBySome(ps, t)
  {
    var all := AllTechnologies(ps);
    var distinct := Dedup(all);
    SortKeepsDistinct(distinct, ToLower, le);
    SortCounts(distinct, ToLower, le);
    forall t ensures t in TechSet(ps, le) <==> UsedBySome(ps, t) {
      AllTechnologiesMembers(ps, t);
      assert t in TechSet(ps, le) <==> t in multiset(distinct);
      if t in distinct {
        var i :| 0 <= i < |distinct| && distinct[i] == t;
      }
      if t in all {
        var i :| 0 <= i < |all| && all[i] == t;
      }
    }
  }

  /** The technology list is in ascending order of the lower-cased names, ties
      kept in order of first use. */
  lemma TechSetSorted(ps: seq<Project>, le: (string, string) -> bool, k: string)
    requires TotalPreorder(le)
    ensures SortedByKey(TechSet(ps, le), ToLower, le)
    ensures ClassOf(TechSet(ps, le), ToLower, le, k) == ClassOf(Dedup(AllTechnologies(ps)), ToLower, le, k)
  {
    SortIsSorted(Dedup(AllTechnologies(ps)), ToLower, le);
    SortIsStable(Dedup(AllTechnologies(ps)), ToLower, le, k);
  }

  /** `prev.filter((t) => t !== tech)`. */
  function Without(sel: seq<string>, tech: string): seq<string>
  {
    if sel == [] then
      []
    else
      (if sel[0] == tech then [] else [sel[0]]) + Without(sel[1..], tech)
  }

  /** Every copy of `tech` goes, every other value stays as often as it was. */
  lemma {:induction false} WithoutCounts(sel: seq<string>, tech: string)
    ensures multiset(Without(sel, tech)) == multiset(sel)[tech := 0]
  {
    if sel != [] {
      WithoutCounts(sel[1..], tech);
      assert sel == [sel[0]] + sel[1..];
    }
  }

  /** Removing a value works piece by piece, so the remaining elements keep
      their order. */
  lemma {:induction false} WithoutAppend(a: seq<string>, b: seq<string>, tech: string)
    ensures Without(a + b, tech) == Without(a, tech) + Without(b, tech)
  {
    if a == [] {
      assert a + b == b;
    } else {
      var head := if a[0] == tech then [] else [a[0]];
      assert (a + b)[0] == a[0] && (a + b)[1..] == a[1..] + b;
      assert Without(a + b, tech) == head + Without(a[1..] + b, tech);
      WithoutAppend(a[1..], b, tech);
      assert Without(a, tech) == head + Without(a[1..], tech);
      assert head + (Without(a[1..], tech) + Without(b, tech))
          == (head + Without(a[1..], tech)) + Without(b, tech);
    }
  }

  /** Removing a value that is not there changes nothing. */
  lemma {:induction false} WithoutAbsent(sel: seq<string>, tech: string)
    requires tech !in sel
    ensures Without(sel, tech) == sel
  {
    if sel != [] {
      WithoutAbsent(sel[1..], tech);
      assert sel == [sel[0]] + sel[1..];
    }
  }

  lemma {:induction false} WithoutKeepsDistinct(sel: seq<string>, tech: string)
    requires NoDuplicates(sel)
    ensures NoDuplicates(Without(sel, tech))
  {
    if sel != [] {
      HeadNotInTail(sel);
      WithoutKeepsDistinct(sel[1..], tech);
      var rest := Without(sel[1..], tech);
      WithoutCounts(sel[1..], tech);
      if sel[0] != tech {
        assert multiset(rest)[sel[0]] == 0;
        NoDuplicatesCons(sel[0], rest);
      } else {
        assert [] + rest == rest;
      }
    }
  }

  /** `toggleTechFilter(tech)` applied to the previous selection: drop `tech`
      if it is selected, otherwise append it. */
  function Toggle(sel: seq<string>, tech: string): seq<string>
  {
    if tech in sel then Without(sel, tech) else sel + [tech]
  }

  /** Toggling flips whether `tech` is selected: a selected one goes with every
      copy of it, an unselected one is appended once; every other value keeps
      its number of occurrences. */
  lemma ToggleFlips(sel: seq<string>, tech: string)
    ensures tech in Toggle(sel, tech) <==> tech !in sel
    ensures tech !in sel ==> |Toggle(sel, tech)| == |sel| + 1 && Toggle(sel, tech)[..|sel|] == sel && Toggle(sel, tech)[|sel|] == tech
    ensures forall u :: u != tech ==> multiset(Toggle(sel, tech))[u] == multiset(sel)[u]
  {
    if tech in sel {
      WithoutCounts(sel, tech);
      assert multiset(Toggle(sel, tech))[tech] == 0;
    } else {
      assert (sel + [tech])[..|sel|] == sel;
    }
  }

  /** Toggling a technology that is not selected, twice, gives back exactly the
      previous selection. */
  lemma ToggleAbsentTwice(sel: seq<string>, tech: string)
    requires tech !in sel
    ensures Toggle(Toggle(sel, tech), tech) == sel
  {
    WithoutAppend(sel, [tech], tech);
    WithoutAbsent(sel, tech);
    assert Without([tech], tech) == [] + Without([], tech);
  }

  /** A selection without duplicates stays without duplicates. */
  lemma TogglePreservesDistinct(sel: seq<string>, tech: string)
    requires NoDuplicates(sel)
    ensures NoDuplicates(Toggle(sel, tech))
  {
    if tech in sel {
      WithoutKeepsDistinct(sel, tech);
    } else {
      var r := sel + [tech];
      forall i, j | 0 <= i < j < |r| ensures r[i] != r[j] {
        assert r[i] == sel[i];
        if j < |sel| {
          assert r[j] == sel[j];
        }
      }
    }
  }

  /** Toggling any technology twice gives a selection with the same members. */
  lemma ToggleTwiceSameMembers(sel: seq<string>, tech: string)
    ensures forall u :: u in Toggle(Toggle(sel, tech), tech) <==> u in sel
  {
    var once := Toggle(sel, tech);
    ToggleFlips(sel, tech);
    ToggleFlips(once, tech);
    forall u ensures u in Toggle(once, tech) <==> u in sel {
      if u != tech {
        assert u in Toggle(once, tech) <==> u in multiset(Toggle(once, tech));
        assert u in sel <==> u in multiset(sel);
      }
    }
  }

  /** Toggling a selected technology twice removes every copy of it and puts
      it back once, at the end. */
  lemma ToggleSelectedTwice(sel: seq<string>, tech: string)
    requires tech in sel
    ensures Toggle(Toggle(sel, tech), tech) == Without(sel, tech) + [tech]
  {
    WithoutCounts(sel, tech);
    assert tech !in multiset(Without(sel, tech));
  }

  /** An instance of `ToggleSelectedTwice`: as a sequence the selection does
      not always come back. */
  lemma ToggleTwiceCanReorder()
    ensures Toggle(Toggle(["Go", "Rust"], "Go"), "Go") == ["Rust", "Go"]
  {
    assert "Go" != "Rust";
    assert Without(["Rust"], "Go") == ["Rust"] + Without([], "Go");
    assert ["Go", "Rust"][1..] == ["Rust"];
    assert Toggle(["Go", "Rust"], "Go") == ["Rust"];
  }

  /** `filteredTech.some((tech) => project.technologies.includes(tech))`. */
  predicate Matches(p: Project, sel: seq<string>) {
    exists t :: t in sel && t in p.technologies
  }

  /** `projects.filter((project) => filteredTech.some(...))`. */
  function KeepMatching(ps: seq<Project>, sel: seq<string>): (r: seq<Project>)
    ensures forall p :: p in r <==> p in ps && Matches(p, sel)
  {
    if ps == [] then
      []
    else
      assert ps == [ps[0]] + ps[1..];
      (if Matches(ps[0], sel) then [ps[0]] else []) + KeepMatching(ps[1..], sel)
  }

  /** The projects that match none of the selected technologies, in order. */
  function KeepUnmatched(ps: seq<Project>, sel: seq<string>): (r: seq<Project>)
    ensures forall p :: p in r <==> p in ps && !Matches(p, sel)
  {
    if ps == [] then
      []
    else
      assert ps == [ps[0]] + ps[1..];
      (if Matches(ps[0], sel) then [] else [ps[0]]) + KeepUnmatched(ps[1..], sel)
  }

  /** Every project is either matching or unmatched, as often as it occurs. */
  lemma {:induction false} MatchingSplitsProjects(ps: seq<Project>, sel: seq<string>)
    ensures multiset(KeepMatching(ps, sel)) + multiset(KeepUnmatched(ps, sel)) == multiset(ps)
  {
    if ps != [] {
      var rest := ps[1..];
      MatchingSplitsProjects(rest, sel);
      assert ps == [ps[0]] + rest;
      assert multiset(ps) == multiset{ps[0]} + multiset(rest);
      if Matches(ps[0], sel) {
        assert KeepMatching(ps, sel) == [ps[0]] + KeepMatching(rest, sel);
        assert KeepUnmatched(ps, sel) == [] + KeepUnmatched(rest, sel);
      } else {
        assert KeepMatching(ps, sel) == [] + KeepMatching(rest, sel);
        assert KeepUnmatched(ps, sel) == [ps[0]] + KeepUnmatched(rest, sel);
      }
    }
  }

  /** `projects.filter((project) => !shown.includes(project))`. */
  function KeepNotIn(ps: seq<Project>, shown: seq<Project>): (r: seq<Project>)
    ensures forall p :: p in r <==> p in ps && p !in shown
  {
    if ps == [] then
      []
    else
      assert ps == [ps[0]] + ps[1..];
      (if ps[0] in shown then [] else [ps[0]]) + KeepNotIn(ps[1..], shown)
  }

  /** The sort key for projects: `project.title.toLowerCase()`. */
  function TitleKey(p: Project): string {
    ToLower(p.title)
  }

  /** `filteredProjects`: the matching projects, sorted by lower-cased title. */
  function FilteredProjects(ps: seq<Project>, sel: seq<string>, le: (string, string) -> bool): seq<Project>
  {
    SortByKey(KeepMatching(ps, sel), TitleKey, le)
  }

  /** `otherProjects`: all projects when nothing is selected, otherwise those
      not in `filteredProjects`; sorted by lower-cased title either way. */
  function OtherProjects(ps: seq<Project>, sel: seq<string>, le: (string, string) -> bool): seq<Project>
  {
    SortByKey(if |sel| == 0 then ps else KeepNotIn(ps, FilteredProjects(ps, sel, le)), TitleKey, le)
  }

  lemma {:induction false} NothingSelectedNothingMatches(ps: seq<Project>, sel: seq<string>)
    requires |sel| == 0
    ensures KeepMatching(ps, sel) == []
  {
    if ps != [] {
      NothingSelectedNothingMatches(ps[1..], sel);
    }
  }

  /** The filtered projects are exactly the projects that use a selected
      technology, each as often as it occurs; none when nothing is selected. */
  lemma FilteredProjectsMembers(ps: seq<Project>, sel: seq<string>, le: (string, string) -> bool)
    ensures forall p :: p in FilteredProjects(ps, sel, le) <==> p in ps && Matches(p, sel)
    ensures multiset(FilteredProjects(ps, sel, le)) <= multiset(ps)
    ensures |sel| == 0 ==> FilteredProjects(ps, sel, le) == []
  {
    var f := FilteredProjects(ps, sel, le);
    SortCounts(KeepMatching(ps, sel), TitleKey, le);
    forall p ensures p in f <==> p in ps && Matches(p, sel) {
      assert p in f <==> p in multiset(KeepMatching(ps, sel));
    }
    MatchingSplitsProjects(ps, sel);
    if |sel| == 0 {
      NothingSelectedNothingMatches(ps, sel);
    }
  }

  /** The filtered projects are in title order, and projects whose titles
      compare equal keep the order of the project list. */
  lemma FilteredProjectsOrder(ps: seq<Project>, sel: seq<string>, le: (string, string) -> bool, k: string)
    requires TotalPreorder(le)
    ensures SortedByKey(FilteredProjects(ps, sel, le), TitleKey, le)
    ensures ClassOf(FilteredProjects(ps, sel, le), TitleKey, le, k)
         == ClassOf(KeepMatching(ps, sel), TitleKey, le, k)
  {
    SortIsSorted(KeepMatching(ps, sel), TitleKey, le);
    SortIsStable(KeepMatching(ps, sel), TitleKey, le, k);
  }

  /** Removing the projects found in a list that holds exactly the matching
      ones leaves the unmatched ones. */
  lemma {:induction false} NotShownIsUnmatched(qs: seq<Project>, shown: seq<Project>, sel: seq<string>)
    requires forall q :: q in qs ==> (q in shown <==> Matches(q, sel))
    ensures KeepNotIn(qs, shown) == KeepUnmatched(qs, sel)
  {
    if qs != [] {
      assert qs[0] in qs;
      NotShownIsUnmatched(qs[1..], shown, sel);
    }
  }

  /** With something selected, "not among the filtered projects" is the same as
      "matching no selected technology": comparing records by value picks the
      same projects as comparing them by identity. */
  lemma OtherAreUnmatched(ps: seq<Project>, sel: seq<string>, le: (string, string) -> bool)
    requires |sel| > 0
    ensures KeepNotIn(ps, FilteredProjects(ps, sel, le)) == KeepUnmatched(ps, sel)
  {
    FilteredProjectsMembers(ps, sel, le);
    NotShownIsUnmatched(ps, FilteredProjects(ps, sel, le), sel);
  }

  /** The two lists together hold every project exactly as often as the full
      list; with something selected no project is in both, and the others are
      exactly the projects that use no selected technology. */
  lemma PartitionOfProjects(ps: seq<Project>, sel: seq<string>, le: (string, string) -> bool)
    ensures multiset(FilteredProjects(ps, sel, le)) + multiset(OtherProjects(ps, sel, le)) == multiset(ps)
    ensures |sel| > 0 ==> forall p :: p in FilteredProjects(ps, sel, le) ==> p !in OtherProjects(ps, sel, le)
    ensures |sel| > 0 ==> forall p :: p in OtherProjects(ps, sel, le) <==> p in ps && !Matches(p, sel)
    ensures |sel| == 0 ==> multiset(OtherProjects(ps, sel, le)) == multiset(ps)
  {
    var before := if |sel| == 0 then ps else KeepNotIn(ps, FilteredProjects(ps, sel, le));
    var o := OtherProjects(ps, sel, le);
    SortCounts(KeepMatching(ps, sel), TitleKey, le);
    SortCounts(before, TitleKey, le);
    if |sel| > 0 {
      OtherAreUnmatched(ps, sel, le);
      MatchingSplitsProjects(ps, sel);
      forall p ensures p in o <==> p in ps && !Matches(p, sel) {
        assert p in o <==> p in multiset(KeepUnmatched(ps, sel));
      }
      forall p | p in FilteredProjects(ps, sel, le) ensures p !in o {
        assert p in multiset(KeepMatching(ps, sel));
      }
    } else {
      NothingSelectedNothingMatches(ps, sel);
    }
  }

  /** The other projects are in title order, and projects whose titles compare
      equal keep the order of the project list. */
  lemma OtherProjectsOrder(ps: seq<Project>, sel: seq<string>, le: (string, string) -> bool, k: string)
    requires TotalPreorder(le)
    ensures SortedByKey(OtherProjects(ps, sel, le), TitleKey, le)
    ensures ClassOf(OtherProjects(ps, sel, le), TitleKey, le, k)
         == ClassOf(if |sel| == 0 then ps else KeepUnmatched(ps, sel), TitleKey, le, k)
  {
    var before := if |sel| == 0 then ps else KeepNotIn(ps, FilteredProjects(ps, sel, le));
    if |sel| > 0 {
      OtherAreUnmatched(ps, sel, le);
    }
    SortIsSorted(before, TitleKey, le);
    SortIsStable(before, TitleKey, le, k);
  }

  lemma {:induction false} KeepMatchingSameMembers(ps: seq<Project>, a: seq<string>, b: seq<string>)
    requires forall u :: u in a <==> u in b
    ensures KeepMatching(ps, a) == KeepMatching(ps, b)
  {
    if ps != [] {
      KeepMatchingSameMembers(ps[1..], a, b);
      assert Matches(ps[0], a) <==> Matches(ps[0], b);
    }
  }

  /** Both lists depend on the selection only through its members: order and
      repetitions in the selection change nothing on the page. */
  lemma SameMembersSameViews(ps: seq<Project>, a: seq<string>, b: seq<string>, le: (string, string) -> bool)
    requires forall u :: u in a <==> u in b
    ensures FilteredProjects(ps, a, le) == FilteredProjects(ps, b, le)
    ensures OtherProjects(ps, a, le) == OtherProjects(ps, b, le)
  {
    KeepMatchingSameMembers(ps, a, b);
    if |a| > 0 {
      assert a[0] in b;
    }
    if |b| > 0 {
      assert b[0] in a;
    }
  }

  /** Clicking a filter button twice leaves both lists as they were, although
      the selection itself may come back reordered. */
  lemma ToggleTwiceSameViews(ps: seq<Project>, sel: seq<string>, tech: string, le: (string, string) -> bool)
    ensures FilteredProjects(ps, Toggle(Toggle(sel, tech), tech), le) == FilteredProjects(ps, sel, le)
    ensures OtherProjects(ps, Toggle(Toggle(sel, tech), tech), le) == OtherProjects(ps, sel, le)
  {
    ToggleTwiceSameMembers(sel, tech);
    SameMembersSameViews(ps, Toggle(Toggle(sel, tech), tech), sel, le);
  }

  /** `projects.filter((project) => project.technologies.includes(tech)).length`. */
  function UsageCount(ps: seq<Project>, t: string): nat
  {
    |KeepMatching(ps, [t])|
  }

  /** A technology's count is at most the number of projects, and it is
      positive exactly when some project uses the technology. */
  lemma {:induction false} UsageCountBounds(ps: seq<Project>, t: string)
    ensures UsageCount(ps, t) <= |ps|
    ensures UsageCount(ps, t) > 0 <==> UsedBySome(ps, t)
  {
    MatchingSplitsProjects(ps, [t]);
    assert |multiset(KeepMatching(ps, [t]))| <= |multiset(ps)|;
    var m := KeepMatching(ps, [t]);
    if UsedBySome(ps, t) {
      var i :| 0 <= i < |ps| && t in ps[i].technologies;
      assert Matches(ps[i], [t]);
      assert ps[i] in m;
    }
    if |m| > 0 {
      assert m[0] in m;
      assert Matches(m[0], [t]);
      var i :| 0 <= i < |ps| && ps[i] == m[0];
      assert t in ps[i].technologies;
    }
  }

  /** The count on a button equals the number of filtered projects shown when
      that technology alone is selected. */
  lemma UsageCountIsFilteredSize(ps: seq<Project>, t: string, le: (string, string) -> bool)
    ensures UsageCount(ps, t) == |FilteredProjects(ps, [t], le)|
  {
    var m := KeepMatching(ps, [t]);
    SortCounts(m, TitleKey, le);
    assert |multiset(SortByKey(m, TitleKey, le))| == |multiset(m)|;
  }

  /** Every technology in the list has a count between one and the number of
      projects. */
  lemma TechSetCountsPositive(ps: seq<Project>, le: (string, string) -> bool)
    ensures forall t :: t in TechSet(ps, le) ==> 1 <= UsageCount(ps, t) <= |ps|
  {
    TechSetDistinctAndComplete(ps, le);
    forall t | t in TechSet(ps, le) ensures 1 <= UsageCount(ps, t) <= |ps| {
      UsageCountBounds(ps, t);
    }
  }

  /** `techSet.reduce((acc, tech) => { acc[tech] = ...; return acc; }, {})`:
      fills a map with one entry per listed technology. */
  method TechCounts(ps: seq<Project>, techs: seq<string>) returns (counts: map<string, nat>)
    ensures forall t :: t in counts <==> t in techs
    ensures forall t :: t in counts ==> counts[t] == UsageCount(ps, t)
  {
    counts := map[];
    for i := 0 to |techs|
      invariant forall t :: t in counts <==> t in techs[..i]
      invariant forall t :: t in counts ==> counts[t] == UsageCount(ps, t)
    {
      assert techs[..i + 1] == techs[..i] + [techs[i]];
      counts := counts[techs[i] := UsageCount(ps, techs[i])];
    }
    assert techs[..|techs|] == techs;
  }

  function SampleProject(title: string, technologies: seq<string>): Project {
    Project(title, [], title, technologies, None, LinkList([[]]))
  }

  lemma SampleFacts(le: (string, string) -> bool)
    requires TotalPreorder(le)
    requires !le("b", "a") && !le("c", "b")
    ensures var a, b, c := SampleProject("A", ["Go"]), SampleProject("B", ["Rust"]),
                           SampleProject("C", ["Go", "Rust"]);
      && le(TitleKey(a), TitleKey(b)) && le(TitleKey(b), TitleKey(c)) && le(TitleKey(a), TitleKey(c))
      && Matches(a, ["Go"]) && !Matches(b, ["Go"]) && Matches(c, ["Go"])
  {
    var a, b, c := SampleProject("A", ["Go"]), SampleProject("B", ["Rust"]),
                   SampleProject("C", ["Go", "Rust"]);
    assert TitleKey(a) == "a" && TitleKey(b) == "b" && TitleKey(c) == "c";
    assert Le(le, "a", "b") || Le(le, "b", "a");
    assert Le(le, "b", "c") || Le(le, "c", "b");
    assert Le(le, "a", "b") && Le(le, "b", "c") ==> Le(le, "a", "c");
    assert "Go" in c.technologies;
    assert "Rust" != "Go";
  }

  /** Of the three sample projects, A and C use Go and B does not. */
  lemma SampleGoMatches(le: (string, string) -> bool)
    requires TotalPreorder(le)
    requires !le("b", "a") && !le("c", "b")
    ensures var a, b, c := SampleProject("A", ["Go"]), SampleProject("B", ["Rust"]),
                           SampleProject("C", ["Go", "Rust"]);
      KeepMatching([a, b, c], ["Go"]) == [a, c]
  {
    var a, b, c := SampleProject("A", ["Go"]), SampleProject("B", ["Rust"]),
                   SampleProject("C", ["Go", "Rust"]);
    SampleFacts(le);
    assert [a, b, c][1..] == [b, c] && [b, c][1..] == [c];
    assert KeepMatching([c], ["Go"]) == [c];
    assert KeepMatching([b, c], ["Go"]) == [c];
  }

  /** Projects A (Go), B (Rust) and C (Go, Rust), under any collation that
      puts "a" before "b" before "c": selecting Go lists A and C as filtered
      and B as the other project. */
  lemma GoSelectionScenario(le: (string, string) -> bool)
    requires TotalPreorder(le)
    requires !le("b", "a") && !le("c", "b")
    ensures var a, b, c := SampleProject("A", ["Go"]), SampleProject("B", ["Rust"]),
                           SampleProject("C", ["Go", "Rust"]);
      && FilteredProjects([a, b, c], ["Go"], le) == [a, c]
      && OtherProjects([a, b, c], ["Go"], le) == [b]
  {
    var a, b, c := SampleProject("A", ["Go"]), SampleProject("B", ["Rust"]),
                   SampleProject("C", ["Go", "Rust"]);
    var ps := [a, b, c];
    SampleFacts(le);
    SampleGoMatches(le);
    assert [a, c][1..] == [c];
    assert SortByKey([c], TitleKey, le) == [c];
    var f := FilteredProjects(ps, ["Go"], le);
    assert f == [a, c];
    assert ps[1..] == [b, c] && ps[1..][1..] == [c];
    assert KeepNotIn([c], f) == [];
    assert KeepNotIn([b, c], f) == [b];
    assert KeepNotIn(ps, f) == [b];
    assert SortByKey([b], TitleKey, le) == [b];
  }

  /** The three sample projects are already in title order. */
  lemma SampleInTitleOrder(le: (string, string) -> bool)
    requires TotalPreorder(le)
    requires !le("b", "a") && !le("c", "b")
    ensures var a, b, c := SampleProject("A", ["Go"]), SampleProject("B", ["Rust"]),
                           SampleProject("C", ["Go", "Rust"]);
      SortByKey([a, b, c], TitleKey, le) == [a, b, c]
  {
    var a, b, c := SampleProject("A", ["Go"]), SampleProject("B", ["Rust"]),
                   SampleProject("C", ["Go", "Rust"]);
    SampleFacts(le);
    assert [a, b, c][1..] == [b, c] && [b, c][1..] == [c];
    assert SortByKey([c], TitleKey, le) == [c];
    assert InsertByKey(b, [c], TitleKey, le) == [b, c];
    assert SortByKey([b, c], TitleKey, le) == [b, c];
    assert InsertByKey(a, [b, c], TitleKey, le) == [a, b, c];
  }

  /** The same three projects with nothing selected: no filtered projects, and
      all three as other projects in title order. */
  lemma EmptySelectionScenario(le: (string, string) -> bool)
    requires TotalPreorder(le)
    requires !le("b", "a") && !le("c", "b")
    ensures var a, b, c := SampleProject("A", ["Go"]), SampleProject("B", ["Rust"]),
                           SampleProject("C", ["Go", "Rust"]);
      && FilteredProjects([a, b, c], [], le) == []
      && OtherProjects([a, b, c], [], le) == [a, b, c]
  {
    var a, b, c := SampleProject("A", ["Go"]), SampleProject("B", ["Rust"]),
                   SampleProject("C", ["Go", "Rust"]);
    NothingSelectedNothingMatches([a, b, c], []);
    SampleInTitleOrder(le);
  }
}
