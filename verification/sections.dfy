/** The explanation panel's cards (MarkdownRenderer.tsx): `groupSections`
    cuts the parsed blocks into sections at every level-2 heading, and
    `detectSection` picks a section's icon and colours from its title. */
module Sections {
  import opened Text
  import opened Wrappers
  import opened Markdown

  /** The `icon`, `accent` and `accentBg` fields of a section. */
  datatype Look = Look(icon: string, accent: string, accentBg: string)

  /** The warning look, for titles about issues, problems or bugs. */
  const IssueLook := Look("\U{26A0}\U{FE0F}", "#ef4444", "rgba(239,68,68,0.06)")

  /** The check-mark look, for titles about fixes, solutions or changes. */
  const FixLook := Look("\U{2705}", "#22c55e", "rgba(34,197,94,0.06)")

  /** The pin look, for every other title. */
  const NoteLook := Look("\U{1F4CC}", "#4f8fff", "rgba(79,143,255,0.06)")

  /** The blank look of the untitled section the grouping starts with. */
  const NoLook := Look("", "", "")

  /** `toLowerCase` on one character, for the ASCII letters. */
  function LowerChar(c: char): char {
    if 'A' <= c <= 'Z' then (c as int + 32) as char else c
  }

  /** `toUpperCase` on one character, for the ASCII letters. */
  function UpperChar(c: char): char {
    if 'a' <= c <= 'z' then (c as int - 32) as char else c
  }

  function Lower(s: string): (r: string)
    ensures |r| == |s| && forall k :: 0 <= k < |s| ==> r[k] == LowerChar(s[k])
  {
    seq(|s|, k requires 0 <= k < |s| => LowerChar(s[k]))
  }

  function Upper(s: string): (r: string)
    ensures |r| == |s| && forall k :: 0 <= k < |s| ==> r[k] == UpperChar(s[k])
  {
    seq(|s|, k requires 0 <= k < |s| => UpperChar(s[k]))
  }

  /** The title names an issue: "issue", "problem" or "bug" occurs in it. */
  predicate IssueWord(t: string) {
    Contains(t, "issue") || Contains(t, "problem") || Contains(t, "bug")
  }

  /** The title names a fix: "fix", "solution" or "change" occurs in it. */
  predicate FixWord(t: string) {
    Contains(t, "fix") || Contains(t, "solution") || Contains(t, "change")
  }

  /** `detectSection`: the lower-cased title is searched for the issue words
      first, then for the fix words; anything else is a note. */
  function DetectSection(title: string): (look: Look)
    ensures look == IssueLook || look == FixLook || look == NoteLook
  {
    var t := Lower(title);
    if IssueWord(t) then IssueLook
    else if FixWord(t) then FixLook
    else NoteLook
  }

  /** The three looks are told apart by their accent colours. */
  lemma LooksDistinct()
    ensures IssueLook != FixLook && IssueLook != NoteLook && FixLook != NoteLook
  {
    assert IssueLook.accent[1] != FixLook.accent[1];
    assert IssueLook.accent[1] != NoteLook.accent[1];
    assert FixLook.accent[1] != NoteLook.accent[1];
  }

  /** Which words pick which look, in priority order: the warning look
      exactly when an issue word occurs in the lower-cased title, the
      check mark exactly when no issue word but a fix word does, and the
      pin exactly when neither does. */
  lemma DetectSectionSpec(title: string)
    ensures DetectSection(title) == IssueLook <==> IssueWord(Lower(title))
    ensures DetectSection(title) == FixLook <==> !IssueWord(Lower(title)) && FixWord(Lower(title))
    ensures DetectSection(title) == NoteLook <==> !IssueWord(Lower(title)) && !FixWord(Lower(title))
  {
    LooksDistinct();
  }

  /** Upper-casing a title first does not change the lower-cased text. */
  lemma LowerUpper(s: string)
    ensures Lower(Upper(s)) == Lower(s)
  {
    forall k | 0 <= k < |s|
      ensures Lower(Upper(s))[k] == Lower(s)[k]
    {
      var c := s[k];
      assert Upper(s)[k] == UpperChar(c);
      if 'a' <= c <= 'z' {
        assert LowerChar(UpperChar(c)) == c;
        assert LowerChar(c) == c;
      }
    }
  }

  /** The look does not depend on the letter case of the title. */
  lemma DetectIgnoresCase(title: string)
    ensures DetectSection(Upper(title)) == DetectSection(title)
  {
    LowerUpper(title);
  }

  /** "Bug Fix" is an issue card. */
  lemma BugFixIsIssue()
    ensures DetectSection("Bug Fix") == IssueLook
  {
    var t := Lower("Bug Fix");
    assert t[0] == 'b' && t[1] == 'u' && t[2] == 'g';
    assert t[0..3] == "bug";
    assert OccursAt(t, "bug", 0);
    DetectSectionSpec("Bug Fix");
  }

  /** `Section`: the title of the heading that opened it, or none for the
      blocks before the first such heading, its look and its blocks. */
  datatype Section = Section(title: Option<string>, look: Look, blocks: seq<Block>)

  /** A level-2 heading opens a new section. */
  predicate IsTitle(b: Block) {
    b.Heading? && b.level == 2
  }

  /** `cur.blocks.length || cur.title`: a section is kept when it holds a
      block or has a non-empty title; the empty string is falsy. */
  predicate Kept(s: Section) {
    |s.blocks| > 0 || (s.title.Some? && s.title.value != "")
  }

  function Emit(s: Section): (r: seq<Section>)
    ensures |r| <= 1
  {
    if Kept(s) then [s] else []
  }

  /** The section a level-2 heading opens. */
  function Opened(title: string): (s: Section)
    ensures s.title == Some(title) && s.blocks == []
  {
    Section(Some(title), DetectSection(title), [])
  }

  /** The `for (const b of blocks)` loop from the current section `cur`
      over the remaining blocks, with the final push. */
  function GroupFrom(cur: Section, bs: seq<Block>): seq<Section>
    decreases |bs|
  {
    if bs == [] then Emit(cur)
    else if IsTitle(bs[0]) then Emit(cur) + GroupFrom(Opened(bs[0].content), bs[1..])
    else GroupFrom(cur.(blocks := cur.blocks + [bs[0]]), bs[1..])
  }

  /** `groupSections`: grouping starts from an untitled, blank section. */
  function GroupSections(bs: seq<Block>): seq<Section> {
    GroupFrom(Section(None, NoLook, []), bs)
  }

  /* ---- Ungrouping: the sections hold the blocks, in order ---- */

  /** A section written back as blocks: its title heading, then its blocks. */
  function Unfold(s: Section): seq<Block> {
    (if s.title.Some? then [Heading(s.title.value, 2)] else []) + s.blocks
  }

  function Ungroup(ss: seq<Section>): seq<Block> {
    if ss == [] then [] else Unfold(ss[0]) + Ungroup(ss[1..])
  }

  lemma {:induction false} UngroupAppend(a: seq<Section>, b: seq<Section>)
    ensures Ungroup(a + b) == Ungroup(a) + Ungroup(b)
    decreases |a|
  {
    if a == [] {
      assert a + b == b;
    } else {
      assert (a + b)[0] == a[0] && (a + b)[1..] == a[1..] + b;
      UngroupAppend(a[1..], b);
    }
  }

  /** Every level-2 heading has a non-empty title. */
  predicate TitlesNamed(bs: seq<Block>) {
    forall k :: 0 <= k < |bs| && IsTitle(bs[k]) ==> bs[k].content != ""
  }

  /** A section whose title, if any, is non-empty. */
  predicate Named(s: Section) {
    s.title.None? || s.title.value != ""
  }

  /** Dropping a named section loses no block. */
  lemma EmitUnfold(s: Section)
    requires Named(s)
    ensures Ungroup(Emit(s)) == Unfold(s)
  {
    if Kept(s) {
      assert Ungroup([s]) == Unfold(s) + Ungroup([]);
    }
  }

  lemma TitlesTail(bs: seq<Block>)
    requires bs != [] && TitlesNamed(bs)
    ensures TitlesNamed(bs[1..])
  {
    forall k | 0 <= k < |bs[1..]| && IsTitle(bs[1..][k])
      ensures bs[1..][k].content != ""
    {
      assert bs[1..][k] == bs[k + 1];
    }
  }

  lemma {:induction false} GroupFromUngroup(cur: Section, bs: seq<Block>)
    requires Named(cur) && TitlesNamed(bs)
    ensures Ungroup(GroupFrom(cur, bs)) == Unfold(cur) + bs
    decreases |bs|
  {
    EmitUnfold(cur);
    if bs != [] {
      var b := bs[0];
      TitlesTail(bs);
      if IsTitle(b) {
        GroupFromUngroup(Opened(b.content), bs[1..]);
        UngroupAppend(Emit(cur), GroupFrom(Opened(b.content), bs[1..]));
        assert Unfold(Opened(b.content)) == [b];
        assert [b] + bs[1..] == bs;
      } else {
        var next := cur.(blocks := cur.blocks + [b]);
        GroupFromUngroup(next, bs[1..]);
        assert Unfold(next) == Unfold(cur) + [b];
        assert Unfold(cur) + [b] + bs[1..] == Unfold(cur) + bs;
      }
    }
  }

  /** Grouping loses, adds and reorders nothing: writing each section back
      as its title heading and its blocks gives the blocks grouped, provided
      no level-2 heading has an empty title. */
  lemma GroupSectionsUngroup(bs: seq<Block>)
    requires TitlesNamed(bs)
    ensures Ungroup(GroupSections(bs)) == bs
  {
    GroupFromUngroup(Section(None, NoLook, []), bs);
  }

  /** An empty level-2 title is falsy, so a section it opens that stays
      empty is dropped together with its heading. */
  lemma EmptyTitleDropped()
    ensures GroupSections([Heading("", 2)]) == []
  {
    var bs := [Heading("", 2)];
    assert GroupFrom(Opened(""), bs[1..]) == [];
  }

  /* ---- The shape of the sections ---- */

  /** The look a section's title gives it. */
  function LookOf(title: Option<string>): Look {
    match title
    case None => NoLook
    case Some(t) => DetectSection(t)
  }

  /** A section as the loop builds it: no level-2 heading among its blocks
      and the look its title gives. */
  predicate Open(s: Section) {
    && s.look == LookOf(s.title)
    && forall k :: 0 <= k < |s.blocks| ==> !IsTitle(s.blocks[k])
  }

  /** The sections `groupSections` returns: each is kept and open, and only
      the first may be untitled. */
  predicate Grouped(ss: seq<Section>) {
    && (forall i :: 0 <= i < |ss| ==> Kept(ss[i]) && Open(ss[i]))
    && (forall i :: 0 < i < |ss| ==> ss[i].title.Some?)
  }

  lemma {:induction false} GroupFromShape(cur: Section, bs: seq<Block>)
    requires Open(cur)
    ensures Grouped(GroupFrom(cur, bs))
    ensures cur.title.Some? ==> forall i :: 0 <= i < |GroupFrom(cur, bs)| ==> GroupFrom(cur, bs)[i].title.Some?
    decreases |bs|
  {
    if bs != [] {
      var b := bs[0];
      if IsTitle(b) {
        var rest := GroupFrom(Opened(b.content), bs[1..]);
        GroupFromShape(Opened(b.content), bs[1..]);
        var r := Emit(cur) + rest;
        forall i | 0 <= i < |r|
          ensures Kept(r[i]) && Open(r[i])
          ensures (i > 0 || cur.title.Some?) ==> r[i].title.Some?
        {
          if i >= |Emit(cur)| {
            assert r[i] == rest[i - |Emit(cur)|];
          }
        }
      } else {
        var next := cur.(blocks := cur.blocks + [b]);
        forall k | 0 <= k < |next.blocks|
          ensures !IsTitle(next.blocks[k])
        {
          if k < |cur.blocks| {
            assert next.blocks[k] == cur.blocks[k];
          }
        }
        GroupFromShape(next, bs[1..]);
      }
    }
  }

  /** Every section is kept, holds no level-2 heading, carries the look of
      its title, and only the first can be untitled. */
  lemma GroupSectionsShape(bs: seq<Block>)
    ensures Grouped(GroupSections(bs))
  {
    GroupFromShape(Section(None, NoLook, []), bs);
  }
}
