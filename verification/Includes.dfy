/** The order of #include lines: `_IncludeState` of cpplint.py. */
module Includes {
  import opened Basics

  datatype Header = CSys | CppSys | LikelyMy | PossibleMy | Other

  predicate IsMy(h: Header) { h == LikelyMy || h == PossibleMy }

  predicate IsSystem(h: Header) { h == CSys || h == CppSys }

  const INITIAL_SECTION := 0
  const MY_H_SECTION := 1
  const C_SECTION := 2
  const CPP_SECTION := 3
  const OTHER_H_SECTION := 4

  type Section = n: nat | n <= OTHER_H_SECTION

  // ----- what is out of place -----

  /** Some header stands in the last group: not a system header, and not among the leading
      headers of this file. */
  ghost predicate Late(hs: seq<Header>) {
    exists i :: 0 <= i < |hs| && (hs[i] == Other || (IsMy(hs[i]) && exists j :: 0 <= j < i && IsSystem(hs[j])))
  }

  /** After `hs`, the header `h` is out of order. */
  ghost predicate Misplaced(hs: seq<Header>, h: Header) {
    IsSystem(h) && (Late(hs) || (h == CSys && CppSys in hs))
  }

  /** Where the headers seen since the last reset have led, misplaced ones included. */
  ghost function SectionAfter(hs: seq<Header>): Section {
    if Late(hs) then OTHER_H_SECTION
    else if CppSys in hs then CPP_SECTION
    else if CSys in hs then C_SECTION
    else if hs != [] then MY_H_SECTION
    else INITIAL_SECTION
  }

  lemma LateStep(hs: seq<Header>, h: Header)
    ensures Late(hs + [h]) <==> Late(hs) || h == Other || (IsMy(h) && (CSys in hs || CppSys in hs))
  {
    var all := hs + [h];
    assert forall i | 0 <= i < |hs| :: all[i] == hs[i];
    assert all[|hs|] == h;
    if IsMy(h) && (CSys in hs || CppSys in hs) {
      var j :| 0 <= j < |hs| && IsSystem(hs[j]);
      assert IsSystem(all[j]) && IsMy(all[|hs|]);
    }
    if Late(hs) {
      var i :| 0 <= i < |hs| && (hs[i] == Other || (IsMy(hs[i]) && exists j :: 0 <= j < i && IsSystem(hs[j])));
      assert all[i] == hs[i];
      if hs[i] != Other {
        var j :| 0 <= j < i && IsSystem(hs[j]);
        assert IsSystem(all[j]);
      }
    }
  }

  // ----- the headers found so far -----

  /** A header and the line that includes it. */
  datatype Include = Include(header: string, line: nat)

  function Flat(lists: seq<seq<Include>>): seq<Include> {
    if lists == [] then [] else Flat(Pop(lists)) + Top(lists)
  }

  lemma FlatStep(lists: seq<seq<Include>>, i: nat)
    requires i < |lists|
    ensures Flat(lists[..i + 1]) == Flat(lists[..i]) + lists[i]
  {
    assert Pop(lists[..i + 1]) == lists[..i];
  }

  lemma {:induction false} FlatPrefix(lists: seq<seq<Include>>, i: nat)
    requires i <= |lists|
    ensures Flat(lists[..i]) <= Flat(lists)
    decreases |lists| - i
  {
    if i == |lists| {
      assert lists[..i] == lists;
    } else {
      FlatPrefix(lists, i + 1);
      FlatStep(lists, i);
    }
  }

  predicate Mentions(found: seq<Include>, header: string) {
    exists i :: 0 <= i < |found| && found[i].header == header
  }

  /** `line` is where `header` is first found, or -1. */
  ghost predicate IsFirstLine(found: seq<Include>, header: string, line: int) {
    if Mentions(found, header)
    then exists k :: 0 <= k < |found| && found[k].header == header && line == found[k].line
                     && !Mentions(found[..k], header)
    else line == -1
  }

  lemma FirstLineHere(before: seq<Include>, list: seq<Include>, j: nat, all: seq<Include>)
    requires j < |list| && before + list <= all && !Mentions(before + list[..j], list[j].header)
    ensures IsFirstLine(all, list[j].header, list[j].line)
  {
    var k := |before| + j;
    assert all[k] == (before + list)[k] == list[j];
    assert all[..k] == before + list[..j];
  }

  class IncludeState {
    /** One list for each section between preprocessor directives. */
    var includeList: seq<seq<Include>>
    var section: Section
    var lastHeader: string

    /** The headers since the last reset. */
    ghost var seen: seq<Header>

    ghost predicate Valid()
      reads this
    {
      section == SectionAfter(seen) && includeList != []
    }

    constructor ()
      ensures Valid() && seen == [] && lastHeader == "" && includeList == [[]]
    {
      includeList := [[]];
      section, lastHeader, seen := INITIAL_SECTION, "", [];
    }

    /** The line of the first include of a header, or -1. */
    method FindHeader(header: string) returns (line: int)
      ensures IsFirstLine(Flat(includeList), header, line)
    {
      for i := 0 to |includeList|
        invariant !Mentions(Flat(includeList[..i]), header)
      {
        ghost var before := Flat(includeList[..i]);
        var list := includeList[i];
        FlatStep(includeList, i);
        FlatPrefix(includeList, i + 1);
        for j := 0 to |list|
          invariant !Mentions(before + list[..j], header)
        {
          if list[j].header == header {
            FirstLineHere(before, list, j, Flat(includeList));
            return list[j].line;
          }
          assert before + list[..j + 1] == before + list[..j] + [list[j]];
        }
        assert list[..|list|] == list;
      }
      assert includeList[..|includeList|] == includeList;
      return -1;
    }

    method AddInclude(header: string, line: nat)
      requires Valid()
      modifies this`includeList
      ensures Valid() && Flat(includeList) == Flat(old(includeList)) + [Include(header, line)]
      ensures |includeList| == |old(includeList)| && Pop(includeList) == Pop(old(includeList))
    {
      var last := includeList[|includeList| - 1];
      includeList := includeList[|includeList| - 1 := last + [Include(header, line)]];
      assert Pop(includeList) == Pop(old(includeList));
    }

    /** A preprocessor directive starts the order anew.  A conditional starts a list of its own,
        and a later branch forgets the includes of the branch before it. */
    method ResetSection(directive: string)
      requires Valid()
      modifies this
      ensures Valid() && seen == [] && lastHeader == ""
      ensures includeList == if directive in ["if", "ifdef", "ifndef"] then old(includeList) + [[]]
                             else if directive in ["else", "elif"] then SetTop(old(includeList), [])
                             else old(includeList)
    {
      section, lastHeader, seen := INITIAL_SECTION, "", [];
      if directive == "if" || directive == "ifdef" || directive == "ifndef" {
        includeList := includeList + [[]];
      } else if directive == "else" || directive == "elif" {
        includeList := includeList[|includeList| - 1 := []];
      }
    }

    /** Returns an error message, or the empty string. */
    method CheckNextIncludeOrder(h: Header) returns (message: string)
      requires Valid()
      modifies this`section, this`lastHeader, this`seen
      ensures Valid() && seen == old(seen) + [h]
      ensures message == if Misplaced(old(seen), h) then Complaint(h, old(section)) else ""
      ensures message == "" <==> !Misplaced(old(seen), h)
      ensures lastHeader == if section != old(section) || Misplaced(old(seen), h) then "" else old(lastHeader)
    {
      hide Late, Complaint;
      LateStep(seen, h);
      message := Complaint(h, section);
      ComplaintSays(h, section);
      var lastSection := section;
      seen := seen + [h];
      if h == CSys {
        if section <= C_SECTION {
          section := C_SECTION;
        } else {
          lastHeader := "";
          return;
        }
      } else if h == CppSys {
        if section <= CPP_SECTION {
          section := CPP_SECTION;
        } else {
          lastHeader := "";
          return;
        }
      } else if IsMy(h) {
        section := if section <= MY_H_SECTION then MY_H_SECTION else OTHER_H_SECTION;
      } else {
        section := OTHER_H_SECTION;
      }
      if lastSection != section {
        lastHeader := "";
      }
      message := "";
    }
  }

  function TypeName(h: Header): string {
    match h
    case CSys => "C system header"
    case CppSys => "C++ system header"
    case LikelyMy => "header this file implements"
    case PossibleMy => "header this file may implement"
    case Other => "other header"
  }

  function SectionName(s: Section): string {
    if s == INITIAL_SECTION then "... nothing. (This can't be an error.)"
    else if s == MY_H_SECTION then "a header this file implements"
    else if s == C_SECTION then "C system header"
    else if s == CPP_SECTION then "C++ system header"
    else "other header"
  }

  function Complaint(h: Header, s: Section): string {
    "Found " + TypeName(h) + " after " + SectionName(s)
  }

  lemma ComplaintSays(h: Header, s: Section)
    ensures Complaint(h, s) != ""
  {
    assert Complaint(h, s)[0] == 'F';
  }

  // ----- whole files -----

  /** No header is out of order when it comes. */
  ghost predicate AllInOrder(hs: seq<Header>) {
    forall i | 0 <= i < |hs| :: !Misplaced(hs[..i], hs[i])
  }

  /** The documented order: headers of this file, C, C++, then anything but system headers. */
  ghost predicate Grouped(hs: seq<Header>, m: nat, c: nat, p: nat) {
    m <= c <= p <= |hs|
    && (forall i | 0 <= i < m :: IsMy(hs[i])) && (forall i | m <= i < c :: hs[i] == CSys)
    && (forall i | c <= i < p :: hs[i] == CppSys) && (forall i | p <= i < |hs| :: !IsSystem(hs[i]))
  }

  /** A file passes exactly if its headers are in the documented order. */
  lemma InOrderIff(hs: seq<Header>)
    ensures AllInOrder(hs) <==> exists m: nat, c: nat, p: nat :: Grouped(hs, m, c, p)
  {
    if AllInOrder(hs) {
      var m, c, p := Groups(hs);
    }
    forall m: nat, c: nat, p: nat | Grouped(hs, m, c, p)
      ensures AllInOrder(hs)
    {
      forall i | 0 <= i < |hs|
        ensures !Misplaced(hs[..i], hs[i])
      {
        assert forall j | 0 <= j < i :: hs[..i][j] == hs[j];
      }
    }
  }

  lemma InOrderPrefix(hs: seq<Header>)
    requires AllInOrder(hs) && hs != []
    ensures AllInOrder(Pop(hs)) && !Misplaced(Pop(hs), Top(hs))
  {
    assert forall i | 0 <= i < |hs| - 1 :: Pop(hs)[..i] == hs[..i];
  }

  /** The groups, with the facts that tell which of them has begun. */
  ghost predicate Sorted(hs: seq<Header>, m: nat, c: nat, p: nat) {
    && Grouped(hs, m, c, p) && (p < |hs| ==> Late(hs))
    && (p == |hs| && c < p ==> CppSys in hs) && (c == |hs| && m < c ==> CSys in hs)
  }

  lemma {:induction false} Groups(hs: seq<Header>) returns (m: nat, c: nat, p: nat)
    requires AllInOrder(hs)
    ensures Sorted(hs, m, c, p)
    decreases |hs|
  {
    hide AllInOrder, Misplaced;
    if hs == [] {
      m, c, p := 0, 0, 0;
    } else {
      InOrderPrefix(hs);
      m, c, p := Groups(Pop(hs));
      assert hs == Pop(hs) + [Top(hs)];
      m, c, p := OneMore(Pop(hs), Top(hs), m, c, p);
    }
  }

  lemma OneMore(hs: seq<Header>, h: Header, m0: nat, c0: nat, p0: nat) returns (m: nat, c: nat, p: nat)
    requires Sorted(hs, m0, c0, p0) && !Misplaced(hs, h)
    ensures Sorted(hs + [h], m, c, p)
  {
    LateStep(hs, h);
    var n := |hs|;
    m, c, p := m0, c0, p0;
    if p < n || h == Other {
    } else if h == CppSys {
      p := n + 1;
    } else if h == CSys {
      c, p := n + 1, n + 1;
    } else if m == n {
      m, c, p := n + 1, n + 1, n + 1;
    }
  }

  /** The section never moves back, not even over misplaced headers. */
  lemma SectionGrows(hs: seq<Header>, h: Header)
    ensures SectionAfter(hs) <= SectionAfter(hs + [h])
    ensures Misplaced(hs, h) ==> SectionAfter(hs + [h]) == SectionAfter(hs)
  {
    LateStep(hs, h);
  }
}
