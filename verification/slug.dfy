/** `slugify` of `src/helpers/utils.js`: `String(t || "")`, lower-cased,
    decomposed to NFD, stripped of combining diacritical marks, every run of
    characters outside `[a-z0-9]` replaced by one "-", and one leading and
    one trailing "-" removed. */
module Slug {
  import opened JsText
  import opened Wrappers

  /** The characters `[a-z0-9]` matches. */
  predicate IsAlnum(c: char)
  {
    'a' <= c <= 'z' || '0' <= c <= '9'
  }

  /** Characters a slug may contain. */
  predicate SlugAlphabet(s: string)
  {
    forall i :: 0 <= i < |s| ==> IsAlnum(s[i]) || s[i] == '-'
  }

  predicate NoDoubleHyphen(s: string)
  {
    forall i, j :: 0 <= i < |s| && 0 <= j < |s| && j == i + 1 ==> !(s[i] == '-' && s[j] == '-')
  }

  predicate NoEdgeHyphen(s: string)
  {
    |s| > 0 ==> s[0] != '-' && s[|s| - 1] != '-'
  }

  /** What `slugify` can return. */
  predicate IsSlug(s: string)
  {
    SlugAlphabet(s) && NoDoubleHyphen(s) && NoEdgeHyphen(s)
  }

  /** The Latin-1 letters with a canonical decomposition, and for each its
      base letter and combining mark (grave, acute, circumflex, tilde,
      diaeresis, ring above, cedilla). */
  const Composed: string := "\U{C0}\U{C1}\U{C2}\U{C3}\U{C4}\U{C5}\U{C7}\U{C8}\U{C9}\U{CA}\U{CB}\U{CC}\U{CD}\U{CE}\U{CF}\U{D1}\U{D2}\U{D3}\U{D4}\U{D5}\U{D6}\U{D9}\U{DA}\U{DB}\U{DC}\U{DD}\U{E0}\U{E1}\U{E2}\U{E3}\U{E4}\U{E5}\U{E7}\U{E8}\U{E9}\U{EA}\U{EB}\U{EC}\U{ED}\U{EE}\U{EF}\U{F1}\U{F2}\U{F3}\U{F4}\U{F5}\U{F6}\U{F9}\U{FA}\U{FB}\U{FC}\U{FD}\U{FF}"
  const Bases: string := "AAAAAACEEEEIIIINOOOOOUUUUYaaaaaaceeeeiiiinooooouuuuyy"
  const Marks: string := "\U{300}\U{301}\U{302}\U{303}\U{308}\U{30A}\U{327}\U{300}\U{301}\U{302}\U{308}\U{300}\U{301}\U{302}\U{308}\U{303}\U{300}\U{301}\U{302}\U{303}\U{308}\U{300}\U{301}\U{302}\U{308}\U{301}\U{300}\U{301}\U{302}\U{303}\U{308}\U{30A}\U{327}\U{300}\U{301}\U{302}\U{308}\U{300}\U{301}\U{302}\U{308}\U{303}\U{300}\U{301}\U{302}\U{303}\U{308}\U{300}\U{301}\U{302}\U{308}\U{301}\U{308}"

  /** Position of `c` in `table`, if any. */
  function IndexOf(table: string, c: char): (k: Option<nat>)
    ensures k.Some? ==> k.value < |table| && table[k.value] == c
    ensures k.None? ==> c !in table
  {
    if table == [] then None
    else if table[0] == c then Some(0)
    else match IndexOf(table[1..], c)
      case None => None
      case Some(k) => Some(k + 1)
  }

  /** Canonical decomposition of one character; characters below U+00C0 and
      those outside the table stay as they are. */
  function Decompose(c: char): (r: string)
    ensures c < '\U{C0}' ==> r == [c]
    ensures 1 <= |r| <= 2
  {
    if c < '\U{C0}' then [c]
    else match IndexOf(Composed, c)
      case None => [c]
      case Some(k) => [Bases[k], Marks[k]]
  }

  /** `normalize("NFD")` on the Latin-1 range. */
  function Nfd(s: string): (r: string)
    ensures |s| <= |r| <= 2 * |s|
  {
    if s == [] then [] else Decompose(s[0]) + Nfd(s[1..])
  }

  /** Decomposition works character by character: it distributes over
      concatenation ... */
  lemma {:induction false} NfdAppend(a: string, b: string)
    ensures Nfd(a + b) == Nfd(a) + Nfd(b)
  {
    if a != [] {
      assert (a + b)[0] == a[0] && (a + b)[1..] == a[1..] + b;
      NfdAppend(a[1..], b);
      Concat3(Decompose(a[0]), Nfd(a[1..]), Nfd(b));
    } else {
      assert a + b == b;
    }
  }

  /** ... and a single character decomposes by the table. */
  lemma NfdChar(c: char)
    ensures Nfd([c]) == Decompose(c)
  {
    assert [c][1..] == [];
  }

  /** The combining diacritical marks U+0300..U+036F. */
  predicate IsMark(c: char)
  {
    '\U{300}' <= c <= '\U{36F}'
  }

  /** `replace(/[\u0300-\u036f]/g, "")`. */
  function StripMarks(s: string): (r: string)
    ensures |r| <= |s|
    ensures forall i :: 0 <= i < |r| ==> !IsMark(r[i])
  {
    if s == [] then []
    else (if IsMark(s[0]) then [] else [s[0]]) + StripMarks(s[1..])
  }

  /** Stripping works character by character: it distributes over
      concatenation ... */
  lemma {:induction false} StripMarksAppend(a: string, b: string)
    ensures StripMarks(a + b) == StripMarks(a) + StripMarks(b)
  {
    if a != [] {
      assert (a + b)[0] == a[0] && (a + b)[1..] == a[1..] + b;
      StripMarksAppend(a[1..], b);
      Concat3(if IsMark(a[0]) then [] else [a[0]], StripMarks(a[1..]), StripMarks(b));
    } else {
      assert a + b == b;
    }
  }

  /** ... removing a combining mark and keeping any other character. */
  lemma StripMarksChar(c: char)
    ensures IsMark(c) ==> StripMarks([c]) == []
    ensures !IsMark(c) ==> StripMarks([c]) == [c]
  {
    assert [c][1..] == [];
  }

  /** `s` without its leading characters outside `[a-z0-9]`. */
  function SkipOthers(s: string): (r: string)
    ensures |r| <= |s|
    ensures |r| > 0 ==> IsAlnum(r[0])
    ensures forall i :: 0 <= i < |s| - |r| ==> !IsAlnum(s[i])
  {
    if s == [] || IsAlnum(s[0]) then s else SkipOthers(s[1..])
  }

  /** What is left after skipping ends where `s` ends. */
  lemma {:induction false} SkipOthersLast(s: string)
    requires SkipOthers(s) != []
    ensures SkipOthers(s)[|SkipOthers(s)| - 1] == s[|s| - 1]
    decreases |s|
  {
    if !IsAlnum(s[0]) {
      SkipOthersLast(s[1..]);
    }
  }

  /** `replace(/[^a-z0-9]+/g, "-")`: each maximal run of characters outside
      `[a-z0-9]` becomes a single "-". */
  function Collapse(s: string): (r: string)
    ensures SlugAlphabet(r) && NoDoubleHyphen(r)
    ensures s == [] <==> r == []
    ensures |s| > 0 ==> (IsAlnum(r[0]) <==> IsAlnum(s[0]))
    decreases |s|
  {
    if s == [] then []
    else if IsAlnum(s[0]) then [s[0]] + Collapse(s[1..])
    else "-" + Collapse(SkipOthers(s[1..]))
  }

  /** `replace(/(^-|-$)/g, "")`: one "-" at the start and one at the end go. */
  function Trim(s: string): (r: string)
    ensures NoDoubleHyphen(s) ==> NoEdgeHyphen(r)
  {
    var a := if |s| > 0 && s[0] == '-' then s[1..] else s;
    if |a| > 0 && a[|a| - 1] == '-' then a[..|a| - 1] else a
  }

  /** The string the hyphen steps work on. */
  function Prepare(s: string): (r: string)
    ensures |r| <= 2 * |s|
    ensures forall i :: 0 <= i < |r| ==> !IsMark(r[i])
  {
    StripMarks(Nfd(ToLower(s)))
  }

  /** Preparing works character by character: lower-casing, decomposing and
      stripping marks each distribute over concatenation. */
  lemma PrepareAppend(a: string, b: string)
    ensures Prepare(a + b) == Prepare(a) + Prepare(b)
  {
    assert ToLower(a + b) == ToLower(a) + ToLower(b);
    NfdAppend(ToLower(a), ToLower(b));
    StripMarksAppend(Nfd(ToLower(a)), Nfd(ToLower(b)));
  }

  /** An ASCII character is only lower-cased. */
  lemma PrepareAsciiChar(c: char)
    requires c < '\U{80}'
    ensures Prepare([c]) == [LowerChar(c)]
  {
    var l := LowerChar(c);
    assert ToLower([c]) == [l];
    NfdChar(l);
    StripMarksChar(l);
  }

  /** On ASCII text, preparing is lower-casing. */
  lemma PrepareAscii(s: string)
    requires forall i :: 0 <= i < |s| ==> s[i] < '\U{80}'
    ensures Prepare(s) == ToLower(s)
  {
    var l := ToLower(s);
    assert forall i :: 0 <= i < |l| ==> l[i] < '\U{80}';
    NfdFixed(l);
    StripMarksFixed(l);
  }

  /** `slugify(t)`, with `None` for a null or undefined `t`: the result is
      always a slug, and an absent or empty input gives "". */
  function Slugify(t: Option<string>): (r: string)
    ensures IsSlug(r)
    ensures t.None? || t == Some([]) ==> r == []
  {
    var s := if t.Some? then t.value else [];
    var c := Collapse(Prepare(s));
    TrimKeepsSlugShape(c);
    Trim(c)
  }

  lemma TrimKeepsSlugShape(s: string)
    requires SlugAlphabet(s) && NoDoubleHyphen(s)
    ensures IsSlug(Trim(s))
  {
  }

  /** Collapsing leaves a slug-shaped string (no "--") unchanged. */
  lemma {:induction false} CollapseFixed(s: string)
    requires SlugAlphabet(s) && NoDoubleHyphen(s)
    ensures Collapse(s) == s
    decreases |s|
  {
    if s != [] {
      var t := s[1..];
      assert SlugAlphabet(t) && NoDoubleHyphen(t);
      if IsAlnum(s[0]) {
        CollapseFixed(t);
        assert [s[0]] + t == s;
      } else {
        if t != [] {
          assert s[0] == '-' && s[1] == t[0];
        }
        assert SkipOthers(t) == t;
        CollapseFixed(t);
        assert "-" + t == s;
      }
    }
  }

  /** Decomposition leaves characters below U+00C0 alone. */
  lemma {:induction false} NfdFixed(s: string)
    requires forall i :: 0 <= i < |s| ==> s[i] < '\U{C0}'
    ensures Nfd(s) == s
  {
    if s != [] {
      NfdFixed(s[1..]);
      assert [s[0]] + s[1..] == s;
    }
  }

  /** Stripping marks leaves a string without marks alone. */
  lemma {:induction false} StripMarksFixed(s: string)
    requires forall i :: 0 <= i < |s| ==> !IsMark(s[i])
    ensures StripMarks(s) == s
  {
    if s != [] {
      StripMarksFixed(s[1..]);
      assert [s[0]] + s[1..] == s;
    }
  }

  /** Every slug is its own slug. */
  lemma SlugFixed(s: string)
    requires IsSlug(s)
    ensures Slugify(Some(s)) == s
  {
    assert ToLower(s) == s;
    NfdFixed(s);
    StripMarksFixed(s);
    CollapseFixed(s);
  }

  /** `slugify` is idempotent. */
  lemma SlugifyIdempotent(t: Option<string>)
    ensures Slugify(Some(Slugify(t))) == Slugify(t)
  {
    SlugFixed(Slugify(t));
  }

  /** The `[a-z0-9]` characters of a string, in order. */
  function Alnums(s: string): string
  {
    if s == [] then [] else (if IsAlnum(s[0]) then [s[0]] else []) + Alnums(s[1..])
  }

  lemma {:induction false} AlnumsAppend(a: string, b: string)
    ensures Alnums(a + b) == Alnums(a) + Alnums(b)
  {
    if a != [] {
      assert (a + b)[0] == a[0] && (a + b)[1..] == a[1..] + b;
      AlnumsAppend(a[1..], b);
      var h := if IsAlnum(a[0]) then [a[0]] else [];
      assert Alnums(a + b) == h + (Alnums(a[1..]) + Alnums(b));
      assert h + (Alnums(a[1..]) + Alnums(b)) == (h + Alnums(a[1..])) + Alnums(b);
    } else {
      assert a + b == b;
    }
  }

  /** A string has no `[a-z0-9]` characters exactly when `Alnums` is empty. */
  lemma {:induction false} AlnumsEmpty(s: string)
    ensures Alnums(s) == [] <==> forall i :: 0 <= i < |s| ==> !IsAlnum(s[i])
  {
    if s != [] {
      AlnumsEmpty(s[1..]);
      if !IsAlnum(s[0]) {
        forall i | 0 <= i < |s| && (forall k :: 0 <= k < |s[1..]| ==> !IsAlnum(s[1..][k]))
          ensures !IsAlnum(s[i])
        {
          if i > 0 {
            assert s[i] == s[1..][i - 1];
          }
        }
      }
    }
  }

  lemma {:induction false} AlnumsSkip(s: string)
    ensures Alnums(SkipOthers(s)) == Alnums(s)
  {
    if s != [] && !IsAlnum(s[0]) {
      AlnumsSkip(s[1..]);
    }
  }

  /** Collapsing keeps the `[a-z0-9]` characters and their order. */
  lemma {:induction false} AlnumsCollapse(s: string)
    ensures Alnums(Collapse(s)) == Alnums(s)
    decreases |s|
  {
    if s != [] {
      if IsAlnum(s[0]) {
        AlnumsCollapse(s[1..]);
        AlnumsAppend([s[0]], Collapse(s[1..]));
      } else {
        AlnumsCollapse(SkipOthers(s[1..]));
        AlnumsSkip(s[1..]);
        AlnumsAppend("-", Collapse(SkipOthers(s[1..])));
      }
    }
  }

  /** Trimming removes only hyphens. */
  lemma AlnumsTrim(s: string)
    ensures Alnums(Trim(s)) == Alnums(s)
  {
    var a := if |s| > 0 && s[0] == '-' then s[1..] else s;
    if |s| > 0 && s[0] == '-' {
      assert s == "-" + a;
      AlnumsAppend("-", a);
    }
    if |a| > 0 && a[|a| - 1] == '-' {
      assert a == a[..|a| - 1] + "-";
      AlnumsAppend(a[..|a| - 1], "-");
    }
  }

  /** The slug keeps exactly the `[a-z0-9]` characters of the lower-cased,
      mark-stripped input, in order. */
  lemma SlugifyKeepsAlnums(s: string)
    ensures Alnums(Slugify(Some(s))) == Alnums(Prepare(s))
  {
    AlnumsCollapse(Prepare(s));
    AlnumsTrim(Collapse(Prepare(s)));
  }

  /** On ASCII text, the slug keeps exactly the letters and digits of the
      input, lower-cased, in order. */
  lemma SlugifyAsciiAlnums(s: string)
    requires forall i :: 0 <= i < |s| ==> s[i] < '\U{80}'
    ensures Alnums(Slugify(Some(s))) == Alnums(ToLower(s))
  {
    SlugifyKeepsAlnums(s);
    PrepareAscii(s);
  }

  /** The slug is empty exactly when the prepared input has no `[a-z0-9]`
      character. */
  lemma EmptySlug(s: string)
    ensures Slugify(Some(s)) == [] <==> forall i :: 0 <= i < |Prepare(s)| ==> !IsAlnum(Prepare(s)[i])
  {
    var r := Slugify(Some(s));
    SlugifyKeepsAlnums(s);
    AlnumsEmpty(Prepare(s));
    AlnumsEmpty(r);
  }

  /** A maximal run of `[a-z0-9]` characters. */
  predicate IsWord(w: string)
  {
    |w| > 0 && forall i :: 0 <= i < |w| ==> IsAlnum(w[i])
  }

  /** The leading `[a-z0-9]` run of `s`. */
  function AlnumPrefix(s: string): (w: string)
    ensures |w| <= |s|
    ensures forall i :: 0 <= i < |w| ==> w[i] == s[i] && IsAlnum(w[i])
    ensures |w| < |s| ==> !IsAlnum(s[|w|])
    ensures |s| > 0 && IsAlnum(s[0]) ==> |w| > 0
  {
    if s == [] || !IsAlnum(s[0]) then [] else [s[0]] + AlnumPrefix(s[1..])
  }

  /** The `[a-z0-9]` runs of `s`, left to right. */
  function Words(s: string): seq<string>
    decreases |s|
  {
    var t := SkipOthers(s);
    if t == [] then []
    else
      var w := AlnumPrefix(t);
      [w] + Words(t[|w|..])
  }

  lemma {:induction false} WordsAreWords(s: string)
    ensures forall k :: 0 <= k < |Words(s)| ==> IsWord(Words(s)[k])
    decreases |s|
  {
    var t := SkipOthers(s);
    if t != [] {
      var w := AlnumPrefix(t);
      WordsAreWords(t[|w|..]);
      assert IsWord(w);
      var ws := Words(s);
      assert ws == [w] + Words(t[|w|..]);
      forall k | 0 <= k < |ws|
        ensures IsWord(ws[k])
      {
        if k > 0 {
          assert ws[k] == Words(t[|w|..])[k - 1];
        }
      }
    }
  }

  /** `ws.join("-")`. */
  function Join(ws: seq<string>): string
  {
    if ws == [] then [] else if |ws| == 1 then ws[0] else ws[0] + "-" + Join(ws[1..])
  }

  /** Joined words start and end with a `[a-z0-9]` character. */
  lemma {:induction false} JoinEdges(ws: seq<string>)
    requires forall k :: 0 <= k < |ws| ==> IsWord(ws[k])
    ensures NoEdgeHyphen(Join(ws))
    ensures ws != [] ==> |Join(ws)| > 0
  {
    if |ws| > 1 {
      JoinEdges(ws[1..]);
      var j := Join(ws);
      assert j == ws[0] + "-" + Join(ws[1..]);
      assert j[0] == ws[0][0];
      assert j[|j| - 1] == Join(ws[1..])[|Join(ws[1..])| - 1];
    }
  }

  /** Collapsing passes a leading run of `[a-z0-9]` characters through. */
  lemma {:induction false} CollapseAlnums(w: string, x: string)
    requires forall i :: 0 <= i < |w| ==> IsAlnum(w[i])
    ensures Collapse(w + x) == w + Collapse(x)
  {
    if w != [] {
      assert (w + x)[0] == w[0] && (w + x)[1..] == w[1..] + x;
      CollapseAlnums(w[1..], x);
      assert [w[0]] + (w[1..] + Collapse(x)) == w + Collapse(x);
    } else {
      assert w + x == x;
    }
  }

  /** "-" when `t` ends in a character outside `[a-z0-9]`. */
  function TrailingHyphen(t: string): string
  {
    if t != [] && !IsAlnum(t[|t| - 1]) then "-" else []
  }

  /** A string starting with a `[a-z0-9]` character is its first word and
      the rest ... */
  lemma SplitFirstWord(t: string)
    ensures t == AlnumPrefix(t) + t[|AlnumPrefix(t)|..]
  {
  }

  /** ... and `Words` takes that word first ... */
  lemma WordsFirst(t: string)
    requires t != [] && IsAlnum(t[0])
    ensures Words(t) == [AlnumPrefix(t)] + Words(t[|AlnumPrefix(t)|..])
  {
    assert SkipOthers(t) == t;
  }

  /** ... while `Collapse` passes it through. */
  lemma CollapseFirst(t: string)
    ensures Collapse(t) == AlnumPrefix(t) + Collapse(t[|AlnumPrefix(t)|..])
  {
    SplitFirstWord(t);
    CollapseAlnums(AlnumPrefix(t), t[|AlnumPrefix(t)|..]);
  }

  /** A string starting with another character: `Words` and `Collapse` go on
      after the run of such characters, and that run reaches the end exactly
      when nothing is left. */
  lemma AfterOthers(rest: string)
    requires rest != [] && !IsAlnum(rest[0])
    ensures var u := SkipOthers(rest[1..]);
      && Words(rest) == Words(u)
      && Collapse(rest) == "-" + Collapse(u)
      && TrailingHyphen(rest) == (if u == [] then "-" else TrailingHyphen(u))
      && (u == [] || IsAlnum(u[0]))
  {
    WordsAfterOthers(rest);
    TrailingAfterOthers(rest);
  }

  lemma WordsAfterOthers(rest: string)
    requires rest != [] && !IsAlnum(rest[0])
    ensures Words(rest) == Words(SkipOthers(rest[1..]))
  {
    var u := SkipOthers(rest[1..]);
    assert SkipOthers(rest) == u;
    assert SkipOthers(u) == u;
  }

  lemma TrailingAfterOthers(rest: string)
    requires rest != [] && !IsAlnum(rest[0])
    ensures var u := SkipOthers(rest[1..]);
      TrailingHyphen(rest) == (if u == [] then "-" else TrailingHyphen(u))
  {
    var u := SkipOthers(rest[1..]);
    if u != [] {
      SkipOthersLast(rest[1..]);
    } else if |rest| > 1 {
      assert !IsAlnum(rest[1..][|rest| - 2]);
    }
  }

  /** From its first word on, a collapsed string is the joined words,
      followed by one "-" when the input ends in other characters. */
  lemma {:induction false} CollapseWords(t: string)
    requires t == [] || IsAlnum(t[0])
    ensures Collapse(t) == Join(Words(t)) + TrailingHyphen(t)
    decreases |t|
  {
    if t == [] {
      assert Words(t) == [];
    } else {
      WordsFirst(t);
      CollapseFirst(t);
      TrailingAfterFirstWord(t);
      var w := AlnumPrefix(t);
      var rest := t[|w|..];
      if rest == [] {
        assert Words(rest) == [] && Collapse(rest) == [];
        assert Words(t) == [w];
      } else {
        AfterOthers(rest);
        var u := SkipOthers(rest[1..]);
        if u == [] {
          assert Words(u) == [] && Collapse(u) == [];
          assert Words(t) == [w];
        } else {
          var ws := Words(u);
          WordsAreWords(u);
          CollapseWords(u);
          JoinEdges(ws);
          assert Words(t) == [w] + ws;
          JoinCons(w, ws);
          Concat3("-", Join(ws), TrailingHyphen(u));
          Concat3(w, "-" + Join(ws), TrailingHyphen(u));
          Concat3(w, "-", Join(ws));
        }
      }
    }
  }

  lemma JoinCons(w: string, ws: seq<string>)
    requires ws != []
    ensures Join([w] + ws) == w + "-" + Join(ws)
  {
    assert ([w] + ws)[1..] == ws;
  }

  /** After the first word, `t` ends as what follows that word ends. */
  lemma TrailingAfterFirstWord(t: string)
    requires t != [] && IsAlnum(t[0])
    ensures var rest := t[|AlnumPrefix(t)|..];
      TrailingHyphen(t) == if rest == [] then [] else TrailingHyphen(rest)
  {
    var w := AlnumPrefix(t);
    if |w| == |t| {
      assert IsAlnum(t[|t| - 1]) by {
        assert w[|t| - 1] == t[|t| - 1];
      }
    } else {
      TrailingDrop(t, |w|);
    }
  }

  /** Dropping a proper prefix keeps the last character. */
  lemma TrailingDrop(t: string, k: nat)
    requires k < |t|
    ensures TrailingHyphen(t[k..]) == TrailingHyphen(t)
  {
    var r := t[k..];
    assert r[|r| - 1] == t[|t| - 1];
  }


  /** Trimming drops a "-" added at either end of a string without edge
      hyphens. */
  lemma TrimWrapped(h: string, x: string, e: string)
    requires NoEdgeHyphen(x)
    requires (h == [] || h == "-") && (e == [] || e == "-")
    ensures Trim(h + x + e) == x
  {
    var s := h + x + e;
    var a := if |s| > 0 && s[0] == '-' then s[1..] else s;
    if x == [] {
      assert |s| <= 2;
    } else {
      assert a == x + e;
    }
  }

  /** Reference definition: the slug is the `[a-z0-9]` runs of the lower-cased,
      mark-stripped input joined with "-". */
  lemma SlugifyWords(s: string)
    ensures Slugify(Some(s)) == Join(Words(Prepare(s)))
  {
    HyphenateWords(Prepare(s));
  }

  /** The two hyphen steps together join the words of their input. */
  lemma HyphenateWords(p: string)
    ensures Trim(Collapse(p)) == Join(Words(p))
  {
    if p != [] && !IsAlnum(p[0]) {
      HyphenateAfterOthers(p);
    } else {
      HyphenateFromWord(p);
    }
  }

  lemma HyphenateAfterOthers(p: string)
    requires p != [] && !IsAlnum(p[0])
    ensures Trim(Collapse(p)) == Join(Words(p))
  {
    AfterOthers(p);
    var u := SkipOthers(p[1..]);
    CollapseWords(u);
    WordsAreWords(u);
    JoinEdges(Words(u));
    var j := Join(Words(u));
    var e := TrailingHyphen(u);
    Concat3("-", j, e);
    TrimWrapped("-", j, e);
  }

  lemma HyphenateFromWord(p: string)
    requires p == [] || IsAlnum(p[0])
    ensures Trim(Collapse(p)) == Join(Words(p))
  {
    CollapseWords(p);
    WordsAreWords(p);
    JoinEdges(Words(p));
    var j := Join(Words(p));
    var e := TrailingHyphen(p);
    TrimTail(j, e);
  }

  lemma TrimTail(x: string, e: string)
    requires NoEdgeHyphen(x) && (e == [] || e == "-")
    ensures Trim(x + e) == x
  {
    TrimWrapped([], x, e);
    assert [] + x + e == x + e;
  }

}
