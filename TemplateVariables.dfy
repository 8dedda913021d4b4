/**
 * The variable extractor of the text node: the global regular expression
 * `\{\{\s*([A-Za-z_$][A-Za-z0-9_$]*)\s*\}\}` is run over the text with
 * repeated `exec` calls, and the captured names go into an insertion-ordered
 * `Set`.
 */
module TemplateVariables {
  import opened Wrappers
  import opened Seqs

  // ---------------------------------------------------------------------------
  // Character classes

  /** ECMAScript `\s`: the WhiteSpace and LineTerminator code points. */
  predicate IsSpace(c: char)
  {
    || c == '\t' || c == '\n' || c == '\U{000B}' || c == '\U{000C}' || c == '\r' || c == ' '
    || c == '\U{00A0}' || c == '\U{1680}' || ('\U{2000}' <= c <= '\U{200A}')
    || c == '\U{2028}' || c == '\U{2029}' || c == '\U{202F}' || c == '\U{205F}'
    || c == '\U{3000}' || c == '\U{FEFF}'
  }

  /** `[A-Za-z_$]` */
  predicate IsIdentStart(c: char)
  {
    ('A' <= c <= 'Z') || ('a' <= c <= 'z') || c == '_' || c == '$'
  }

  /** `[A-Za-z0-9_$]` */
  predicate IsIdentPart(c: char)
  {
    IsIdentStart(c) || ('0' <= c <= '9')
  }

  /** The characters the expression itself uses fall in none of its classes except the one named. */
  lemma ClassesDisjoint(c: char)
    ensures IsIdentPart(c) ==> !IsSpace(c)
    ensures c == '{' || c == '}' ==> !IsSpace(c) && !IsIdentPart(c)
  {
  }

  /** A name the capture group can produce. */
  ghost predicate IsIdentifier(name: string)
  {
    && |name| >= 1
    && IsIdentStart(name[0])
    && forall k :: 1 <= k < |name| ==> IsIdentPart(name[k])
  }

  // ---------------------------------------------------------------------------
  // One match

  /** The end of the run of `\s` characters starting at `i`. */
  function SkipSpaces(text: string, i: nat): (j: nat)
    requires i <= |text|
    ensures i <= j <= |text|
    ensures forall k :: i <= k < j ==> IsSpace(text[k])
    ensures j == |text| || !IsSpace(text[j])
    decreases |text| - i
  {
    if i < |text| && IsSpace(text[i]) then SkipSpaces(text, i + 1) else i
  }

  /** The end of the run of `[A-Za-z0-9_$]` characters starting at `i`. */
  function SkipIdentPart(text: string, i: nat): (j: nat)
    requires i <= |text|
    ensures i <= j <= |text|
    ensures forall k :: i <= k < j ==> IsIdentPart(text[k])
    ensures j == |text| || !IsIdentPart(text[j])
    decreases |text| - i
  {
    if i < |text| && IsIdentPart(text[i]) then SkipIdentPart(text, i + 1) else i
  }

  /** A match: where it starts, the captured name, and where the next search resumes (`lastIndex`). */
  datatype Match = Match(start: nat, name: string, end: nat)

  /**
   * The match of the expression that starts exactly at `i`, if any. Both
   * `\s*` runs and the name are maximal: giving back a character never lets
   * the rest match, so this is the only match at `i`.
   */
  function MatchAt(text: string, i: nat): (r: Option<Match>)
    requires i <= |text|
    ensures r.Some? ==> r.value.start == i && i + 4 + |r.value.name| <= r.value.end <= |text|
    ensures r.Some? ==> IsIdentifier(r.value.name)
  {
    if i + 2 <= |text| && text[i] == '{' && text[i + 1] == '{' then
      var s := SkipSpaces(text, i + 2);
      if s < |text| && IsIdentStart(text[s]) then
        var e := SkipIdentPart(text, s + 1);
        var f := SkipSpaces(text, e);
        if f + 2 <= |text| && text[f] == '}' && text[f + 1] == '}' then
          Some(Match(i, text[s..e], f + 2))
        else None
      else None
    else None
  }

  /**
   * The expression matches `text[i..f + 2]` with the name at `text[s..e]`:
   * `{{`, spaces, the name, spaces, `}}`.
   */
  ghost predicate IsMatchAt(text: string, i: nat, s: nat, e: nat, f: nat)
  {
    && i + 2 <= s < e <= f && f + 2 <= |text|
    && text[i] == '{' && text[i + 1] == '{'
    && (forall k :: i + 2 <= k < s ==> IsSpace(text[k]))
    && IsIdentStart(text[s])
    && (forall k :: s < k < e ==> IsIdentPart(text[k]))
    && (forall k :: e <= k < f ==> IsSpace(text[k]))
    && text[f] == '}' && text[f + 1] == '}'
  }

  /** A run of spaces that stops at a non-space is the one `SkipSpaces` finds. */
  lemma SkipSpacesExact(text: string, i: nat, j: nat)
    requires i <= j < |text|
    requires forall k :: i <= k < j ==> IsSpace(text[k])
    requires !IsSpace(text[j])
    ensures SkipSpaces(text, i) == j
  {
    var r := SkipSpaces(text, i);
  }

  lemma SkipIdentPartExact(text: string, i: nat, j: nat)
    requires i <= j < |text|
    requires forall k :: i <= k < j ==> IsIdentPart(text[k])
    requires !IsIdentPart(text[j])
    ensures SkipIdentPart(text, i) == j
  {
    var r := SkipIdentPart(text, i);
  }

  /** Every way the expression can match at `i` is the one `MatchAt` finds. */
  lemma MatchAtComplete(text: string, i: nat, s: nat, e: nat, f: nat)
    requires IsMatchAt(text, i, s, e, f)
    ensures MatchAt(text, i) == Some(Match(i, text[s..e], f + 2))
  {
    ClassesDisjoint(text[s]);
    SkipSpacesExact(text, i + 2, s);
    ClassesDisjoint(text[e]);
    SkipIdentPartExact(text, s + 1, e);
    ClassesDisjoint(text[f]);
    SkipSpacesExact(text, e, f);
  }

  /** What `MatchAt` finds is a match of the expression. */
  lemma MatchAtSound(text: string, i: nat) returns (s: nat, e: nat, f: nat)
    requires i <= |text| && MatchAt(text, i).Some?
    ensures IsMatchAt(text, i, s, e, f)
    ensures MatchAt(text, i) == Some(Match(i, text[s..e], f + 2))
  {
    s := SkipSpaces(text, i + 2);
    e := SkipIdentPart(text, s + 1);
    f := SkipSpaces(text, e);
  }

  /** Nothing inside a match, after its first character, starts another one. */
  lemma NoOverlap(text: string, i: nat, k: nat)
    requires i <= |text| && MatchAt(text, i).Some?
    requires i < k < MatchAt(text, i).value.end
    ensures MatchAt(text, k).None?
  {
    var s, e, f := MatchAtSound(text, i);
    if k + 2 <= |text| {
      // the first of `text[k]`, `text[k + 1]` past the opening braces
      var p := if k == i + 1 then k + 1 else k;
      var c := text[p];
      ClassesDisjoint(c);
      assert c != '{' by {
        if p < s {
          assert IsSpace(c);
        } else if p < e {
          assert IsIdentPart(c);
        } else if p < f {
          assert IsSpace(c);
        }
      }
    }
  }

  // ---------------------------------------------------------------------------
  // Scanning

  /**
   * `regex.exec(text)` with `lastIndex == from`: the leftmost match starting
   * at or after `from`, or null.
   */
  function Exec(text: string, from: nat): (r: Option<Match>)
    requires from <= |text|
    ensures r.Some? ==> from <= r.value.start <= |text| && MatchAt(text, r.value.start) == r
    ensures r.Some? ==> forall k :: from <= k < r.value.start ==> MatchAt(text, k).None?
    ensures r.None? ==> forall k :: from <= k <= |text| ==> MatchAt(text, k).None?
    decreases |text| - from
  {
    match MatchAt(text, from)
    case Some(m) => Some(m)
    case None =>
      if from == |text| then None
      else
        var r := Exec(text, from + 1);
        NoMatchBefore(text, from, if r.Some? then r.value.start else |text| + 1);
        r
  }

  /** No match at `from` and none from `from + 1` up to `to` means none from `from` up to `to`. */
  lemma NoMatchBefore(text: string, from: nat, to: nat)
    requires from < to <= |text| + 1 && MatchAt(text, from).None?
    requires forall k :: from + 1 <= k < to ==> MatchAt(text, k).None?
    ensures forall k :: from <= k < to ==> MatchAt(text, k).None?
  {
  }

  /** The names of the successive matches from `i` on, each search resuming after the previous match. */
  function Matches(text: string, i: nat): (names: seq<string>)
    requires i <= |text|
    decreases |text| - i
  {
    match MatchAt(text, i)
    case Some(m) => [m.name] + Matches(text, m.end)
    case None => if i == |text| then [] else Matches(text, i + 1)
  }

  /** One `exec` call takes the first of the remaining matches. */
  lemma {:induction false} ExecMatches(text: string, from: nat)
    requires from <= |text|
    ensures Exec(text, from).None? ==> Matches(text, from) == []
    ensures Exec(text, from).Some? ==>
      Matches(text, from) == [Exec(text, from).value.name] + Matches(text, Exec(text, from).value.end)
    decreases |text| - from
  {
    if MatchAt(text, from).None? && from < |text| {
      ExecMatches(text, from + 1);
    }
  }

  /** `name` is captured by a match of the expression starting at `k`. */
  ghost predicate NameAt(text: string, k: nat, name: string)
  {
    k <= |text| && MatchAt(text, k).Some? && MatchAt(text, k).value.name == name
  }

  /**
   * Resuming after each match loses nothing: the scan from `i` collects the
   * name of every match that starts at or after `i`.
   */
  lemma {:induction false} MatchesMembers(text: string, i: nat, name: string)
    requires i <= |text|
    ensures name in Matches(text, i) <==> exists k :: i <= k && NameAt(text, k, name)
  {
    if name in Matches(text, i) {
      var k := MatchesSound(text, i, name);
    }
    if exists k :: i <= k && NameAt(text, k, name) {
      var k :| i <= k && NameAt(text, k, name);
      MatchesComplete(text, i, k, name);
    }
  }

  /** Every collected name was captured by a match at or after `i`. */
  lemma {:induction false} MatchesSound(text: string, i: nat, name: string) returns (k: nat)
    requires i <= |text| && name in Matches(text, i)
    ensures i <= k && NameAt(text, k, name)
    decreases |text| - i
  {
    match MatchAt(text, i)
    case Some(m) =>
      if name == m.name {
        k := i;
      } else {
        k := MatchesSound(text, m.end, name);
      }
    case None =>
      k := MatchesSound(text, i + 1, name);
  }

  /** The name of a match at `k` is collected by the scan from any `i <= k`. */
  lemma {:induction false} MatchesComplete(text: string, i: nat, k: nat, name: string)
    requires i <= k && NameAt(text, k, name)
    ensures name in Matches(text, i)
    decreases |text| - i
  {
    match MatchAt(text, i)
    case Some(m) =>
      if name != m.name {
        if k < m.end {
          NoOverlap(text, i, k);
        }
        MatchesComplete(text, m.end, k, name);
      }
    case None =>
      MatchesComplete(text, i + 1, k, name);
  }

  /** Every collected name is an identifier. */
  lemma {:induction false} MatchesIdentifiers(text: string, i: nat)
    requires i <= |text|
    ensures forall name :: name in Matches(text, i) ==> IsIdentifier(name)
    decreases |text| - i
  {
    match MatchAt(text, i)
    case Some(m) =>
      MatchesIdentifiers(text, m.end);
    case None =>
      if i < |text| {
        MatchesIdentifiers(text, i + 1);
      }
  }

  // ---------------------------------------------------------------------------
  // The insertion-ordered set

  /** `Array.from(new Set(s))`: the first occurrence of each element, in order. */
  function Dedup(s: seq<string>): (r: seq<string>)
    ensures NoDup(r)
    ensures forall x :: x in r <==> x in s
  {
    if s == [] then []
    else
      var p := Dedup(s[..|s| - 1]);
      var x := s[|s| - 1];
      assert forall y :: y in s <==> y in s[..|s| - 1] || y == x by {
        assert s == s[..|s| - 1] + [x];
      }
      if x in p then p else p + [x]
  }

  /** The position of the first occurrence of an element is not moved by appending. */
  lemma {:induction false} FirstIndexAppend(s: seq<string>, x: string, y: string)
    requires y in s
    ensures FirstIndex(s + [x], y) == FirstIndex(s, y)
  {
    if s[0] != y {
      assert (s + [x])[1..] == s[1..] + [x];
      FirstIndexAppend(s[1..], x, y);
    }
  }

  /** The kept elements appear in the order of their first occurrences. */
  lemma {:induction false} DedupOrder(s: seq<string>)
    ensures forall i, j :: 0 <= i < j < |Dedup(s)| ==> FirstIndex(s, Dedup(s)[i]) < FirstIndex(s, Dedup(s)[j])
  {
    if s != [] {
      var p, x := s[..|s| - 1], s[|s| - 1];
      assert s == p + [x];
      DedupOrder(p);
      var d := Dedup(p);
      forall y | y in d
        ensures FirstIndex(s, y) == FirstIndex(p, y) < |p|
      {
        FirstIndexAppend(p, x, y);
      }
      if x !in d {
        assert FirstIndex(s, x) == |p| by {
          assert s[|p|] == x;
        }
      }
    }
  }

  // ---------------------------------------------------------------------------
  // The extractor

  /** The variables of a text: the distinct captured names in order of first appearance. */
  function Extract(text: string): seq<string>
  {
    Dedup(Matches(text, 0))
  }

  /**
   * The first `useEffect` of the text node: `exec` until it returns null,
   * adding each captured name to `found`, then `Array.from(found)`.
   */
  method ExtractVariables(text: string) returns (vars: seq<string>)
    ensures vars == Extract(text)
  {
    var found: seq<string> := [];
    ghost var names: seq<string> := [];
    var lastIndex := 0;
    var m := Exec(text, lastIndex);
    while m.Some?
      invariant lastIndex <= |text| && m == Exec(text, lastIndex)
      invariant names + Matches(text, lastIndex) == Matches(text, 0)
      invariant found == Dedup(names)
      decreases |text| - lastIndex
    {
      var name := m.value.name;
      ExecStep(text, lastIndex, names);
      DedupAppend(names, name);
      if name !in found {
        found := found + [name];
      }
      names := names + [name];
      lastIndex := m.value.end;
      m := Exec(text, lastIndex);
    }
    ExecMatches(text, lastIndex);
    assert names + [] == names;
    vars := found;
  }

  /** After a successful `exec`, the scan goes on from the match's end with one more name collected. */
  lemma ExecStep(text: string, lastIndex: nat, names: seq<string>)
    requires lastIndex <= |text| && Exec(text, lastIndex).Some?
    requires names + Matches(text, lastIndex) == Matches(text, 0)
    ensures var m := Exec(text, lastIndex).value;
      && lastIndex < m.end <= |text|
      && (names + [m.name]) + Matches(text, m.end) == Matches(text, 0)
  {
    var m := Exec(text, lastIndex).value;
    ExecMatches(text, lastIndex);
    assert names + Matches(text, lastIndex) == (names + [m.name]) + Matches(text, m.end);
  }

  /** `Set.prototype.add`: appending an element keeps it only when it is new. */
  lemma DedupAppend(names: seq<string>, x: string)
    ensures Dedup(names + [x]) == if x in Dedup(names) then Dedup(names) else Dedup(names) + [x]
  {
    assert (names + [x])[..|names|] == names;
  }

  // ---------------------------------------------------------------------------
  // Properties of the variable list

  lemma ExtractDistinct(text: string)
    ensures NoDup(Extract(text))
  {
  }

  /** A name is a variable exactly when some match of the expression captures it. */
  lemma ExtractMembers(text: string, name: string)
    ensures name in Extract(text) <==> exists k :: NameAt(text, k, name)
  {
    MatchesMembers(text, 0, name);
  }

  /** Variables are listed in the order in which they first appear in the text. */
  lemma ExtractOrder(text: string)
    ensures var names, vars := Matches(text, 0), Extract(text);
      forall i, j :: 0 <= i < j < |vars| ==> FirstIndex(names, vars[i]) < FirstIndex(names, vars[j])
  {
    DedupOrder(Matches(text, 0));
  }

  lemma ExtractIdentifiers(text: string)
    ensures forall name :: name in Extract(text) ==> IsIdentifier(name)
  {
    MatchesIdentifiers(text, 0);
  }

  /** A text in which the expression matches nowhere, the empty text among them, has no variables. */
  lemma NoMatchNoVariables(text: string)
    requires forall k :: 0 <= k <= |text| ==> MatchAt(text, k).None?
    ensures Extract(text) == []
  {
    if Extract(text) != [] {
      var name := Extract(text)[0];
      ExtractMembers(text, name);
    }
  }

  lemma EmptyTextNoVariables()
    ensures Extract("") == []
  {
  }

  /** `{{x}}` with a one-letter name `x` and no spaces. */
  lemma BareMatch(t: string, i: nat)
    requires i + 5 <= |t| && t[i] == '{' && t[i + 1] == '{' && IsIdentStart(t[i + 2])
    requires t[i + 3] == '}' && t[i + 4] == '}'
    ensures MatchAt(t, i) == Some(Match(i, [t[i + 2]], i + 5))
  {
    ClassesDisjoint(t[i + 2]);
    ClassesDisjoint(t[i + 3]);
    assert t[i + 2..i + 3] == [t[i + 2]];
  }

  /** The scan of `{{b}} {{a}} {{b}}` from the space after the second match. */
  lemma RepeatedExampleEnd(t: string)
    requires t == "{{b}} {{a}} {{b}}"
    ensures Matches(t, 11) == ["b"]
  {
    BareMatch(t, 12);
    assert Matches(t, 12) == ["b"];
  }

  /** The scan of `{{b}} {{a}} {{b}}` from the space after the first match. */
  lemma RepeatedExampleMiddle(t: string)
    requires t == "{{b}} {{a}} {{b}}"
    ensures Matches(t, 5) == ["a", "b"]
  {
    RepeatedExampleEnd(t);
    BareMatch(t, 6);
    assert Matches(t, 6) == ["a", "b"];
  }

  /** A repeated variable is listed once, at its first appearance. */
  lemma RepeatedVariableExample(t: string)
    requires t == "{{b}} {{a}} {{b}}"
    ensures Extract(t) == ["b", "a"]
  {
    RepeatedExampleMiddle(t);
    BareMatch(t, 0);
    assert Matches(t, 0) == ["b", "a", "b"];
    assert Dedup(["b", "a", "b"]) == ["b", "a"] by {
      assert ["b", "a", "b"][..2] == ["b", "a"];
      assert ["b", "a"][..1] == ["b"];
    }
  }

  /** Spaces inside the braces are allowed around the name. */
  lemma SpacedVariableExample(t: string)
    requires t == "{{ name }}"
    ensures Extract(t) == ["name"]
  {
    assert IsSpace(t[2]) && IsSpace(t[7]);
    assert forall k :: 4 <= k < 7 ==> IsIdentPart(t[k]);
    MatchAtComplete(t, 0, 3, 7, 8);
    assert t[3..7] == "name";
    assert Matches(t, 10) == [];
    assert Matches(t, 0) == ["name"];
    assert Dedup(["name"]) == ["name"] by {
      assert ["name"][..0] == [];
    }
  }

  /** A name may not start with a digit. */
  lemma DigitFirstExample()
    ensures Extract("{{1a}}") == []
  {
    var t := "{{1a}}";
    forall k | 0 <= k <= |t|
      ensures MatchAt(t, k).None?
    {
    }
    NoMatchNoVariables(t);
  }
}
