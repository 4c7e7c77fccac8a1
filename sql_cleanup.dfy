/**
 * The cleanup that `generate_sql` applies to the model's completion before
 * it is sent to the remote host: the stripped text is cut at each of seven
 * separators in turn, `SELECT ` is put in front when it does not start
 * with that keyword, a `;` is appended when missing, whitespace is
 * collapsed to single spaces, and one trailing `;` is removed again. A
 * blank completion, or a blank result, becomes a fixed default query.
 */
module SqlCleanup {
  import opened PyStr

  const DefaultQuery: string := "SELECT COUNT(*) FROM application"
  /** A separator the completion is cut at; `str.split` refuses an empty one. */
  type Separator = s: string | s != [] witness "==="

  const Separators: seq<Separator> := ["\n\n", "===", "reply:", "To find", "This query", "The above", "Note:"]

  /** `response_text.upper().startswith('SELECT')` */
  predicate StartsWithSelect(s: string) {
    StartsWith(Upper(s), "SELECT")
  }

  /** One iteration of the separator loop: when `sep` occurs, the text
      before its first occurrence, stripped; otherwise the text itself. */
  function CutAt(text: string, sep: Separator): string {
    if Contains(text, sep) then Strip(Split(text, sep)[0]) else text
  }

  /** The text after the separator loop has run over `seps`, in order. */
  function CutAll(text: string, seps: seq<Separator>): string {
    if seps == [] then text
    else CutAt(CutAll(text, seps[..|seps| - 1]), seps[|seps| - 1])
  }

  /** Prepend `SELECT ` unless the text already starts with it, ignoring case. */
  function AddSelect(t: string): (u: string)
    ensures StartsWithSelect(u)
    ensures u == t || u == "SELECT " + t
    ensures u == t <==> StartsWithSelect(t)
  {
    if StartsWithSelect(t) then t
    else
      var u := "SELECT " + t;
      assert u[..6] == "SELECT";
      assert forall i :: 0 <= i < 6 ==> Upper(u)[i] == "SELECT"[i];
      u
  }

  /** Append `;` unless the text already ends with one. */
  function AddSemicolon(u: string): (v: string)
    ensures v != [] && v[|v| - 1] == ';'
    ensures v == u || v == u + ";"
    ensures v == u <==> EndsWith(u, ";")
  {
    if EndsWith(u, ";") then
      assert u[|u| - 1] == u[|u| - 1..][0];
      u
    else u + ";"
  }

  /** Remove one trailing `;` and strip what is left. */
  function DropSemicolon(w: string): string {
    if EndsWith(w, ";") then Strip(w[..|w| - 1]) else w
  }

  /** The whole cleanup, from the model's completion to the SQL sent on. */
  function Cleanup(raw: string): string {
    var t := Strip(raw);
    if t == [] then DefaultQuery
    else
      var r := DropSemicolon(Collapse(AddSemicolon(AddSelect(CutAll(t, Separators)))));
      if r == [] then DefaultQuery else r
  }

  /** The separator loop of `generate_sql`. */
  method CutSeparators(text: string) returns (cut: string)
    ensures cut == CutAll(text, Separators)
  {
    cut := text;
    for i := 0 to |Separators|
      invariant cut == CutAll(text, Separators[..i])
    {
      var separator := Separators[i];
      assert Separators[..i + 1][..i] == Separators[..i];
      if Contains(cut, separator) {
        cut := Strip(Split(cut, separator)[0]);
      }
    }
    assert Separators[..|Separators|] == Separators;
  }

  /** The cleanup as `generate_sql` performs it, reassigning one text. */
  method CleanCompletion(raw: string) returns (sql: string)
    ensures sql == Cleanup(raw)
    ensures sql != [] && StartsWithSelect(sql) && Collapsed(sql)
  {
    var responseText := Strip(raw);
    if responseText == [] {
      sql := DefaultQuery;
      DefaultShape();
      return;
    }
    responseText := CutSeparators(responseText);
    ghost var c := responseText;
    if !StartsWithSelect(responseText) {
      responseText := "SELECT " + responseText;
    }
    assert responseText == AddSelect(c);
    if !EndsWith(responseText, ";") {
      responseText := responseText + ";";
    }
    assert responseText == AddSemicolon(AddSelect(c));
    responseText := Join(" ", Words(responseText));
    ghost var w := responseText;
    if EndsWith(responseText, ";") {
      responseText := Strip(responseText[..|responseText| - 1]);
    }
    assert responseText == DropSemicolon(w);
    sql := if responseText != [] then responseText else DefaultQuery;
    CleanupShape(raw);
  }

  // ---------------------------------------------------------------- properties

  /** The first six characters of a text that starts with `SELECT` in any
      case are letters: neither blanks nor `;`. */
  lemma {:induction false} SelectLead(s: string)
    requires StartsWithSelect(s)
    ensures |s| >= 6
    ensures forall i :: 0 <= i < 6 ==> !IsSpace(s[i]) && s[i] != ';'
  {
    forall i | 0 <= i < 6
      ensures !IsSpace(s[i]) && s[i] != ';'
    {
      assert Upper(s)[i] == Upper(s)[..6][i] == "SELECT"[i];
      assert UpperChar(s[i]) == "SELECT"[i];
    }
  }

  /** A text that begins with the first six characters of a `SELECT` text
      starts with `SELECT` too. */
  lemma {:induction false} SelectKept(s: string, t: string)
    requires StartsWithSelect(s) && |s| >= 6 && StartsWith(t, s[..6])
    ensures StartsWithSelect(t)
  {
    forall i | 0 <= i < 6
      ensures Upper(t)[i] == "SELECT"[i]
    {
      assert t[i] == t[..6][i] == s[..6][i] == s[i];
      assert Upper(s)[i] == Upper(s)[..6][i];
    }
    assert Upper(t)[..6] == "SELECT";
  }

  /** A slice of a single-spaced text is single-spaced. */
  lemma {:induction false} SingleSpacedSlice(s: string, a: nat, b: nat)
    requires SingleSpaced(s) && a <= b <= |s|
    ensures SingleSpaced(s[a..b])
  {
    var x := s[a..b];
    assert forall i :: 0 <= i < |x| ==> x[i] == s[a + i];
  }

  /** The default query is itself a clean result. */
  lemma {:induction false} DefaultShape()
    ensures DefaultQuery != [] && StartsWithSelect(DefaultQuery) && Collapsed(DefaultQuery)
  {
    DefaultStartsWithSelect();
    DefaultSpaces();
    DefaultSingleSpaces();
  }

  lemma {:induction false} DefaultSingleSpaces()
    ensures forall i :: 0 <= i < |DefaultQuery| - 1 ==> !(DefaultQuery[i] == ' ' && DefaultQuery[i + 1] == ' ')
  {
    forall i | 0 <= i < |DefaultQuery| - 1 && DefaultQuery[i] == ' '
      ensures DefaultQuery[i + 1] != ' '
    {
      assert i == 6 || i == 15 || i == 20;
    }
  }

  lemma {:induction false} DefaultStartsWithSelect()
    ensures StartsWithSelect(DefaultQuery)
  {
    assert Upper(DefaultQuery)[..6] == "SELECT";
  }

  lemma {:induction false} DefaultSpaces()
    ensures forall i :: 0 <= i < |DefaultQuery| && IsSpace(DefaultQuery[i]) ==> DefaultQuery[i] == ' '
  {
    forall i | 0 <= i < |DefaultQuery| && DefaultQuery[i] != ' '
      ensures !IsSpace(DefaultQuery[i])
    {
      assert '(' <= DefaultQuery[i] <= 'z';
    }
  }

  /** After the collapse: dropping the `;` and stripping keeps the `SELECT`
      start and the single-line shape. */
  lemma {:induction false} DropShape(w: string)
    requires StartsWithSelect(w) && Collapsed(w) && w != [] && w[|w| - 1] == ';'
    ensures DropSemicolon(w) != []
    ensures StartsWithSelect(DropSemicolon(w)) && Collapsed(DropSemicolon(w))
  {
    SelectLead(w);
    var n := |w| - 1;
    var x := w[..n];
    assert w[n..] == ";";
    assert forall i :: 0 <= i < 6 ==> x[i] == w[i];
    StripKeepsLead(x, 6);
    StripByShape(x, IsSpace);
    var r := Strip(x);
    assert DropSemicolon(w) == r;
    assert forall i :: 0 <= i < 6 ==> r[i] == w[i];
    assert r[..6] == w[..6];
    SelectKept(w, r);
    assert w[..|r|] == r;
    SingleSpacedSlice(w, 0, |r|);
  }

  /** Dropping the final `;` removes exactly that `;` from the non-blank text. */
  lemma {:induction false} DropNonSpace(w: string)
    requires w != [] && w[|w| - 1] == ';'
    ensures NonSpace(DropSemicolon(w)) + ";" == NonSpace(w)
  {
    var x := w[..|w| - 1];
    assert w[|w| - 1..] == ";";
    NonSpaceStrip(x);
    NonSpaceLast(w);
  }

  /** After `SELECT`, `;` and the collapse: a single-line text that starts
      with `SELECT`, ends with `;` and has the same non-blank text. */
  lemma {:induction false} CollapsedShape(c: string)
    ensures var w := Collapse(AddSemicolon(AddSelect(c)));
      && w != [] && w[|w| - 1] == ';'
      && StartsWithSelect(w) && Collapsed(w)
      && NonSpace(w) == NonSpace(AddSemicolon(AddSelect(c)))
  {
    var u := AddSelect(c);
    var v := AddSemicolon(u);
    SelectLead(u);
    assert v[..6] == u[..6];
    SelectKept(u, v);
    SelectLead(v);
    CollapseKeepsLead(v, 6);
    SelectKept(v, Collapse(v));
    CollapseMeaning(v);
    CollapseKeepsLast(v);
  }

  /** Shape of the result: never empty, starting with `SELECT` in some
      case, and on one line with single spaces and no blank at either end. */
  lemma {:induction false} CleanupShape(raw: string)
    ensures Cleanup(raw) != []
    ensures StartsWithSelect(Cleanup(raw))
    ensures Collapsed(Cleanup(raw))
  {
    var t := Strip(raw);
    if t == [] {
      DefaultShape();
    } else {
      var c := CutAll(t, Separators);
      CollapsedShape(c);
      DropShape(Collapse(AddSemicolon(AddSelect(c))));
    }
  }

  /** A blank completion gives the default query. */
  lemma {:induction false} BlankGivesDefault(raw: string)
    requires AllSpace(raw)
    ensures Cleanup(raw) == DefaultQuery
  {
    StripEmptyIffBlank(raw);
  }

  /** Exactly one `;` is removed at the end, whether the cleanup appended it
      or it was already there: apart from whitespace, the result followed
      by `;` is the text after the `;` step. */
  lemma {:induction false} OneSemicolonRemoved(raw: string)
    requires !AllSpace(raw)
    ensures NonSpace(Cleanup(raw)) + ";" == NonSpace(AddSemicolon(AddSelect(CutAll(Strip(raw), Separators))))
  {
    StripEmptyIffBlank(raw);
    var c := CutAll(Strip(raw), Separators);
    CollapsedShape(c);
    var w := Collapse(AddSemicolon(AddSelect(c)));
    DropShape(w);
    DropNonSpace(w);
  }

  /** Cutting at a separator keeps a piece of the text: the stripped part
      before the separator's first occurrence, or all of it. */
  lemma {:induction false} CutAtPiece(text: string, sep: Separator) returns (a: nat, b: nat)
    ensures a <= b <= |text| && CutAt(text, sep) == text[a..b]
  {
    if Contains(text, sep) {
      var i := Find(text, sep).value;
      var p := text[..i];
      assert Split(text, sep)[0] == p;
      var L := LeadingRun(p, IsSpace);
      StripByShape(p, IsSpace);
      a, b := L, L + |Strip(p)|;
      assert |p| == i && b <= i;
      SliceOfPrefix(text, i, a, b);
    } else {
      a, b := 0, |text|;
    }
  }

  /** After the separator loop no separator it has seen is left. */
  lemma {:induction false} CutAllAvoids(text: string, seps: seq<Separator>)
    ensures forall k :: 0 <= k < |seps| ==> !Contains(CutAll(text, seps), seps[k])
  {
    if seps != [] {
      var init := seps[..|seps| - 1];
      var sep := seps[|seps| - 1];
      var c := CutAll(text, init);
      CutAllAvoids(text, init);
      var a, b := CutAtPiece(c, sep);
      forall k | 0 <= k < |init|
        ensures !Contains(c[a..b], init[k])
      {
        NotContainsSlice(c, init[k], a, b);
      }
      CutAtAvoids(c, sep);
    }
  }

  /** A cut leaves no occurrence of its separator. */
  lemma {:induction false} CutAtAvoids(c: string, sep: Separator)
    ensures !Contains(CutAt(c, sep), sep)
  {
    if Contains(c, sep) {
      SplitPieces(c, sep);
      NotContainsStrip(Split(c, sep)[0], sep);
    }
  }

  lemma {:induction false} NotContainsStrip(p: string, sep: Separator)
    requires !Contains(p, sep)
    ensures !Contains(Strip(p), sep)
  {
    StripByShape(p, IsSpace);
    var L := LeadingRun(p, IsSpace);
    NotContainsSlice(p, sep, L, L + |Strip(p)|);
  }

  /** Cutting the strip of a prefix of `raw` gives the strip of a shorter
      prefix. */
  lemma {:induction false} CutAtPrefix(raw: string, k0: nat, sep: Separator) returns (k: nat)
    requires k0 <= |raw|
    ensures k <= k0 && CutAt(Strip(raw[..k0]), sep) == Strip(raw[..k])
  {
    var q := raw[..k0];
    var c := Strip(q);
    if Contains(c, sep) {
      var i := Find(c, sep).value;
      assert Split(c, sep)[0] == c[..i];
      StripOfStripPrefix(q, i);
      k := LeadingRun(q, IsSpace) + i;
      assert q[..k] == raw[..k];
    } else {
      k := k0;
    }
  }

  /** What the separator loop keeps of a stripped completion is the strip
      of a prefix of the completion. */
  lemma {:induction false} CutAllPrefix(raw: string, seps: seq<Separator>) returns (k: nat)
    ensures k <= |raw| && CutAll(Strip(raw), seps) == Strip(raw[..k])
  {
    if seps == [] {
      k := |raw|;
      assert raw[..k] == raw;
    } else {
      var k0 := CutAllPrefix(raw, seps[..|seps| - 1]);
      k := CutAtPrefix(raw, k0, seps[|seps| - 1]);
    }
  }

  /** When the cut text has no `;`, the `;` appended by the cleanup is the
      one removed, and none is left. */
  lemma {:induction false} NoSemicolonAdded(c: string)
    requires ';' !in c
    ensures ';' !in DropSemicolon(Collapse(AddSemicolon(AddSelect(c))))
  {
    var u := AddSelect(c);
    var v := AddSemicolon(u);
    SemicolonAppended(c);
    NonSpaceAppend(u, ";");
    assert NonSpace(";") == ";";
    CollapsedShape(c);
    var r := DropSemicolon(Collapse(v));
    DropNonSpace(Collapse(v));
    assert NonSpace(r) == (NonSpace(r) + ";")[..|NonSpace(r)|];
    SameNonSpaceNoSemicolon(r, u);
  }

  /** Without a `;` in the text, `SELECT ` brings none in and one `;` is
      appended. */
  lemma {:induction false} SemicolonAppended(c: string)
    requires ';' !in c
    ensures ';' !in AddSelect(c) && AddSemicolon(AddSelect(c)) == AddSelect(c) + ";"
  {
    var u := AddSelect(c);
    if u != c {
      assert u == "SELECT " + c;
    }
    if |u| > 0 {
      assert u[|u| - 1..][0] == u[|u| - 1];
    }
  }

  /** `;` is not blank: texts with the same non-blank characters agree on
      holding it. */
  lemma {:induction false} SameNonSpaceNoSemicolon(r: string, u: string)
    requires NonSpace(r) == NonSpace(u) && ';' !in u
    ensures ';' !in r
  {
    NonSpaceCount(r, ';');
    NonSpaceCount(u, ';');
  }

  /** A completion without `;` gives a result without `;`. */
  lemma {:induction false} NoSemicolonKept(raw: string)
    requires ';' !in raw
    ensures ';' !in Cleanup(raw)
  {
    StripEmptyIffBlank(raw);
    if !AllSpace(raw) {
      var c := CutAll(Strip(raw), Separators);
      assert ';' !in c by {
        var k := CutAllPrefix(raw, Separators);
        StripChars(raw[..k]);
      }
      NoSemicolonAdded(c);
      assert Cleanup(raw) == DropSemicolon(Collapse(AddSemicolon(AddSelect(c)))) by {
        CollapsedShape(c);
        DropShape(Collapse(AddSemicolon(AddSelect(c))));
      }
    }
  }

  /** A text holding none of the separators passes the loop unchanged. */
  lemma {:induction false} CutAllNone(text: string, seps: seq<Separator>)
    requires forall k :: 0 <= k < |seps| ==> !Contains(text, seps[k])
    ensures CutAll(text, seps) == text
  {
    if seps != [] {
      CutAllNone(text, seps[..|seps| - 1]);
    }
  }

  /** A single-line `SELECT` text that ends with `;` and holds no separator
      comes out with that `;` dropped and nothing else changed. */
  lemma {:induction false} CleanupOfClean(s: string)
    requires s != [] && Collapsed(s) && StartsWithSelect(s) && EndsWith(s, ";")
    requires forall k :: 0 <= k < |Separators| ==> !Contains(s, Separators[k])
    ensures Cleanup(s) == Strip(s[..|s| - 1])
  {
    StripTrimmed(s);
    CutAllNone(s, Separators);
    CollapseCollapsed(s);
    assert s[|s| - 1] == s[|s| - 1..][0];
    DropShape(s);
  }

  /** A completion that already starts with `SELECT` and holds no
      separator once stripped is collapsed, and loses one final `;` if it
      has one: nothing is put in front and no `;` is left over. */
  lemma {:induction false} CleanupOfSelect(c: string)
    requires StartsWithSelect(Strip(c))
    requires forall k :: 0 <= k < |Separators| ==> !Contains(Strip(c), Separators[k])
    ensures Cleanup(c) == DropSemicolon(Collapse(c))
  {
    var t := Strip(c);
    SelectLead(t);
    CutAllNone(t, Separators);
    CollapsedShape(t);
    DropShape(Collapse(AddSemicolon(t)));
    WordsStrip(c);
    if !EndsWith(t, ";") {
      StripByShape(c, IsSpace);
      assert t[|t| - 1] == t[|t| - 1..][0];
      SemicolonCollapse(t);
    }
  }

  /** For a stripped text not ending in `;`: appending `;` before the
      collapse and dropping it after leaves the collapsed text. */
  lemma {:induction false} SemicolonCollapse(t: string)
    requires t != [] && !IsSpace(t[|t| - 1]) && t[|t| - 1] != ';'
    ensures DropSemicolon(Collapse(t + ";")) == Collapse(t)
    ensures DropSemicolon(Collapse(t)) == Collapse(t)
  {
    CollapseSnoc(t, ';');
    CollapseMeaning(t);
    CollapseKeepsLast(t);
    DropAppended(Collapse(t));
    DropNoSemicolon(Collapse(t));
  }

  /** Dropping a `;` just appended to a single-line text gives the text. */
  lemma {:induction false} DropAppended(x: string)
    requires Collapsed(x)
    ensures DropSemicolon(x + ";") == x
  {
    var y := x + ";";
    assert y[|y| - 1..] == ";";
    assert y[..|y| - 1] == x;
    StripTrimmed(x);
  }

  /** A text that does not end in `;` keeps it. */
  lemma {:induction false} DropNoSemicolon(x: string)
    requires x != [] && x[|x| - 1] != ';'
    ensures DropSemicolon(x) == x
  {
    assert x[|x| - 1..][0] == x[|x| - 1];
  }

  /** The cleanup is not idempotent: on `SELECT 1;;` the first pass leaves
      a `;` that the second pass removes. */
  lemma {:induction false} NotIdempotent(s: string)
    requires s == "SELECT 1;;"
    ensures Cleanup(s) == "SELECT 1;"
    ensures Cleanup(Cleanup(s)) == "SELECT 1"
  {
    ConcreteClean(s);
    var once := s[..|s| - 1];
    assert once == "SELECT 1;";
    ConcreteClean(once);
    assert once[..|once| - 1] == "SELECT 1";
  }

  /** On `SELECT 1` followed by one or two `;` the cleanup drops one `;`. */
  lemma {:induction false} ConcreteClean(s: string)
    requires s == "SELECT 1;;" || s == "SELECT 1;"
    ensures Cleanup(s) == s[..|s| - 1]
  {
    ConcreteShape(s);
    assert forall i :: 0 <= i < |s| ==> s[i] in "SELCT 1;";
    NoSeparatorIn(s);
    CleanupOfClean(s);
    var t := s[..|s| - 1];
    assert t[0] == 'S' && t[|t| - 1] != ' ';
    StripTrimmed(t);
  }

  lemma {:induction false} ConcreteShape(s: string)
    requires s == "SELECT 1;;" || s == "SELECT 1;"
    ensures s != [] && Collapsed(s) && StartsWithSelect(s) && EndsWith(s, ";")
  {
    assert Upper(s)[..6] == "SELECT";
    assert forall i :: 0 <= i < |s| && IsSpace(s[i]) ==> i == 6;
  }

  /** A text written with the letters of `SELECT`, blanks, `1` and `;` holds
      none of the separators. */
  lemma {:induction false} NoSeparatorIn(s: string)
    requires forall i :: 0 <= i < |s| ==> s[i] in "SELCT 1;"
    ensures forall k :: 0 <= k < |Separators| ==> !Contains(s, Separators[k])
  {
    MissingChar(s, Separators[0], '\n');
    MissingChar(s, Separators[1], '=');
    MissingChar(s, Separators[2], 'r');
    MissingChar(s, Separators[3], 'o');
    MissingChar(s, Separators[4], 'h');
    MissingChar(s, Separators[5], 'h');
    MissingChar(s, Separators[6], 'o');
  }
}
