/**
 * The search filter of the launch list (src/view/Launches.jsx:21-30): the
 * visible list is recomputed from the accumulated records and the raw search
 * term, keeping every record whose lower-cased mission name includes the
 * lower-cased term, in the original order.
 */
module Filtering {
  import opened Text
  import opened Records

  /** The test of src/view/Launches.jsx:24, with the term already lower-cased. */
  predicate MatchesNeedle(l: Launch, needle: string)
    ensures needle == "" ==> MatchesNeedle(l, needle)
    ensures MatchesNeedle(l, needle) ==> |needle| <= |l.missionName|
  {
    Includes(LowerStr(l.missionName), needle)
  }

  /** Case-insensitive substring match of the mission name against the raw term. */
  predicate Matches(l: Launch, term: string)
    ensures term == "" ==> Matches(l, term)
    ensures Matches(l, term) ==> |term| <= |l.missionName|
  {
    MatchesNeedle(l, LowerStr(term))
  }

  /** The filter callback accepts a record exactly when the needle occurs in its lower-cased name. */
  lemma MatchesNeedleIffOccurs(l: Launch, needle: string)
    ensures MatchesNeedle(l, needle) <==> Occurs(LowerStr(l.missionName), needle)
  {
    IncludesIffOccurs(LowerStr(l.missionName), needle);
  }

  /** A record matches a raw term exactly when the lower-cased term occurs in its lower-cased name. */
  lemma MatchesIffOccurs(l: Launch, term: string)
    ensures Matches(l, term) <==> Occurs(LowerStr(l.missionName), LowerStr(term))
  {
    MatchesNeedleIffOccurs(l, LowerStr(term));
  }

  /** `ls.filter(...)`: the records of `ls` that match `needle`, in order. */
  function Keep(ls: seq<Launch>, needle: string): (kept: seq<Launch>)
    ensures |kept| <= |ls|
  {
    if ls == [] then []
    else if MatchesNeedle(ls[0], needle) then [ls[0]] + Keep(ls[1..], needle)
    else Keep(ls[1..], needle)
  }

  /**
   * The list the effect settles on: a truthy (non-empty) term filters,
   * the empty term shows the accumulated list itself.
   */
  function Filter(ls: seq<Launch>, term: string): (visible: seq<Launch>)
    ensures |visible| <= |ls|
  {
    if term != "" then Keep(ls, LowerStr(term)) else ls
  }

  /** `Keep` keeps the matching records of `ls` and only those. */
  lemma {:induction false} KeepMembers(ls: seq<Launch>, needle: string)
    ensures forall i :: 0 <= i < |Keep(ls, needle)| ==>
              Keep(ls, needle)[i] in ls && MatchesNeedle(Keep(ls, needle)[i], needle)
    ensures forall i :: 0 <= i < |ls| ==> (ls[i] in Keep(ls, needle) <==> MatchesNeedle(ls[i], needle))
  {
    if ls != [] {
      KeepMembers(ls[1..], needle);
      assert forall i :: 1 <= i < |ls| ==> ls[i] == ls[1..][i - 1];
    }
  }

  /** The visible list holds exactly the loaded records that match the term. */
  lemma FilterMembers(ls: seq<Launch>, term: string)
    ensures forall i :: 0 <= i < |Filter(ls, term)| ==>
              Filter(ls, term)[i] in ls && Matches(Filter(ls, term)[i], term)
    ensures forall i :: 0 <= i < |ls| ==> (ls[i] in Filter(ls, term) <==> Matches(ls[i], term))
  {
    FilterIsKeep(ls, term);
    KeepMembers(ls, LowerStr(term));
  }

  /** `a` is `b` with some elements left out, the rest in the same order. */
  ghost predicate IsSubsequence<T>(a: seq<T>, b: seq<T>)
    decreases |b|
  {
    a == [] || (b != [] && ((a[0] == b[0] && IsSubsequence(a[1..], b[1..])) || IsSubsequence(a, b[1..])))
  }

  /** Filtering with the empty needle keeps everything. */
  lemma {:induction false} KeepEmptyNeedle(ls: seq<Launch>)
    ensures Keep(ls, "") == ls
  {
    if ls != [] {
      KeepEmptyNeedle(ls[1..]);
    }
  }

  /** The `if (searchTerm)` branch is only a shortcut: filtering always gives the same list. */
  lemma {:induction false} FilterIsKeep(ls: seq<Launch>, term: string)
    ensures Filter(ls, term) == Keep(ls, LowerStr(term))
  {
    if term == "" {
      KeepEmptyNeedle(ls);
    }
  }

  lemma {:induction false} KeepAppend(a: seq<Launch>, b: seq<Launch>, needle: string)
    ensures Keep(a + b, needle) == Keep(a, needle) + Keep(b, needle)
  {
    if a != [] {
      assert (a + b)[1..] == a[1..] + b;
      KeepAppend(a[1..], b, needle);
    } else {
      assert a + b == b;
    }
  }

  /** Filtering distributes over concatenation. */
  lemma {:induction false} FilterAppend(a: seq<Launch>, b: seq<Launch>, term: string)
    ensures Filter(a + b, term) == Filter(a, term) + Filter(b, term)
  {
    FilterIsKeep(a + b, term);
    FilterIsKeep(a, term);
    FilterIsKeep(b, term);
    KeepAppend(a, b, LowerStr(term));
  }

  /** On one record, the filter keeps it exactly when it matches. */
  lemma FilterSingle(x: Launch, term: string)
    ensures Filter([x], term) == if Matches(x, term) then [x] else []
  {
    FilterIsKeep([x], term);
  }

  lemma {:induction false} KeepSubsequence(ls: seq<Launch>, needle: string)
    ensures IsSubsequence(Keep(ls, needle), ls)
  {
    if ls != [] {
      KeepSubsequence(ls[1..], needle);
      var kept := Keep(ls, needle);
      if MatchesNeedle(ls[0], needle) {
        assert kept[0] == ls[0] && kept[1..] == Keep(ls[1..], needle);
      }
    }
  }

  /** The visible list preserves the relative order of the accumulated list. */
  lemma FilterSubsequence(ls: seq<Launch>, term: string)
    ensures IsSubsequence(Filter(ls, term), ls)
  {
    FilterIsKeep(ls, term);
    KeepSubsequence(ls, LowerStr(term));
  }

  lemma {:induction false} KeepAllIffAllMatch(ls: seq<Launch>, needle: string)
    ensures Keep(ls, needle) == ls <==> forall x :: x in ls ==> MatchesNeedle(x, needle)
  {
    KeepMembers(ls, needle);
    if ls != [] && forall x :: x in ls ==> MatchesNeedle(x, needle) {
      KeepAllIffAllMatch(ls[1..], needle);
      assert ls == [ls[0]] + ls[1..];
    }
  }

  /** The filter leaves a list as it is exactly when every record in it matches. */
  lemma FilterAllIffAllMatch(ls: seq<Launch>, term: string)
    ensures Filter(ls, term) == ls <==> forall x :: x in ls ==> Matches(x, term)
  {
    FilterIsKeep(ls, term);
    KeepAllIffAllMatch(ls, LowerStr(term));
  }

  /** Running the effect again with the same term changes nothing. */
  lemma FilterIdempotent(ls: seq<Launch>, term: string)
    ensures Filter(Filter(ls, term), term) == Filter(ls, term)
  {
    FilterMembers(ls, term);
    FilterAllIffAllMatch(Filter(ls, term), term);
  }

  /** Terms that lower-case to the same string select the same records. */
  lemma FilterCaseInsensitive(ls: seq<Launch>, a: string, b: string)
    requires LowerStr(a) == LowerStr(b)
    ensures Filter(ls, a) == Filter(ls, b)
  {
    FilterIsKeep(ls, a);
    FilterIsKeep(ls, b);
  }

  /**
   * src/view/Launches.jsx:42 appends a fetched page to the visible list unfiltered; that
   * transient list is already the settled one exactly when every record of
   * the page matches the current term.
   */
  lemma {:induction false} TransientAppendSettled(ls: seq<Launch>, fetched: seq<Launch>, term: string)
    ensures Filter(ls, term) + fetched == Filter(ls + fetched, term)
        <==> forall x :: x in fetched ==> Matches(x, term)
  {
    FilterAppend(ls, fetched, term);
    FilterAllIffAllMatch(fetched, term);
    var before := Filter(ls, term);
    if before + fetched == before + Filter(fetched, term) {
      assert (before + fetched)[|before|..] == fetched;
      assert (before + Filter(fetched, term))[|before|..] == Filter(fetched, term);
    }
  }

  lemma StarshipLacksFalcon()
    ensures !Includes("starship", "falcon")
  {
    var s, t := "starship", "falcon";
    assert s[1..] == "tarship" && s[2..] == "arship" && s[3..] == "rship";
    assert s[..6][0] != t[0] && s[1..][..6][0] != t[0] && s[2..][..6][0] != t[0];
    assert |s[3..]| < |t|;
  }

  /** A capitalised word without other capitals lower-cases to its first letter lowered. */
  lemma LowerCapitalised(c: char, t: string)
    requires forall i :: 0 <= i < |t| ==> !IsAsciiUpper(t[i])
    ensures LowerStr([c] + t) == [LowerChar(c)] + t
  {
    LowerStrNoUpper(t);
    assert ([c] + t)[1..] == t;
  }

  lemma LowerFalcon1()
    ensures LowerStr("Falcon 1") == "falcon 1"
  {
    var t := "alcon 1";
    assert "Falcon 1" == ['F'] + t && "falcon 1" == ['f'] + t;
    assert LowerChar('F') == 'f';
    LowerCapitalised('F', t);
  }

  lemma LowerFalcon9()
    ensures LowerStr("Falcon 9") == "falcon 9"
  {
    var t := "alcon 9";
    assert "Falcon 9" == ['F'] + t && "falcon 9" == ['f'] + t;
    assert LowerChar('F') == 'f';
    LowerCapitalised('F', t);
  }

  lemma LowerStarship()
    ensures LowerStr("Starship") == "starship"
  {
    var t := "tarship";
    assert "Starship" == ['S'] + t && "starship" == ['s'] + t;
    assert LowerChar('S') == 's';
    LowerCapitalised('S', t);
  }

  lemma Falcon1Matches(a: Launch)
    requires a.missionName == "Falcon 1"
    ensures MatchesNeedle(a, "falcon")
  {
    LowerFalcon1();
    assert "falcon" <= "falcon 1";
  }

  lemma Falcon9Matches(b: Launch)
    requires b.missionName == "Falcon 9"
    ensures MatchesNeedle(b, "falcon")
  {
    LowerFalcon9();
    assert "falcon" <= "falcon 9";
  }

  lemma StarshipMisses(c: Launch)
    requires c.missionName == "Starship"
    ensures !MatchesNeedle(c, "falcon")
  {
    LowerStarship();
    StarshipLacksFalcon();
  }

  /**
   * Searching "falcon" among "Falcon 1", "Falcon 9" and "Starship" keeps the
   * two Falcon records in their original order.
   */
  lemma FalconSearch(a: Launch, b: Launch, c: Launch)
    requires a.missionName == "Falcon 1" && b.missionName == "Falcon 9"
    requires c.missionName == "Starship"
    ensures Filter([a, b, c], "falcon") == [a, b]
  {
    LowerStrNoUpper("falcon");
    Falcon1Matches(a);
    Falcon9Matches(b);
    StarshipMisses(c);
    assert Keep([c], "falcon") == [] by {
      assert [c][1..] == [];
    }
    assert Keep([b, c], "falcon") == [b] by {
      assert [b, c][1..] == [c];
    }
    assert Keep([a, b, c], "falcon") == [a, b] by {
      assert [a, b, c][1..] == [b, c];
    }
  }
}
