/** `CharRepresenter` of CharRepresenter.cs: two growing code tables that
    give every distinct line, and every distinct word, one `char`, so that
    texts can be compared one symbol per line or per word. */
module CharRepresenters {
  import opened Text
  import opened Ranges

  // ---------------------------------------------------------------- code tables

  /** One code table: `codes[c]` is the string with code `c` (`charToLine`,
      `charToWord`) and `index` the dictionary back (`lineToChar`, `wordToChar`). */
  datatype Table = Table(codes: seq<Line>, index: map<Line, Char16>)

  /** The entries from `base` on are the strings added so far, each once,
      each filed under the code of its position; the entries before `base`
      are reserved and not in the dictionary. */
  ghost predicate TableValid(t: Table, base: nat) {
    base <= |t.codes| && KeysAdded(t, base) && Filed(t, base) && Distinct(t, base)
  }

  ghost predicate KeysAdded(t: Table, base: nat) {
    forall s :: s in t.index ==> exists i :: base <= i < |t.codes| && t.codes[i] == s
  }

  predicate Filed(t: Table, base: nat) {
    forall i :: base <= i < |t.codes| ==> t.codes[i] in t.index && t.index[t.codes[i]] == ToChar16(i)
  }

  predicate Distinct(t: Table, base: nat) {
    forall i, j :: base <= i < j < |t.codes| ==> t.codes[i] != t.codes[j]
  }

  /** `AddLine`, and the dictionary part of `AddWord`: a known string keeps
      its code, a new one gets the next code, truncated to 16 bits like the
      `(char)` cast. */
  function Add(t: Table, s: Line): (Table, Char16) {
    if s in t.index then (t, t.index[s])
    else
      var c := ToChar16(|t.codes|);
      (Table(t.codes + [s], t.index[s := c]), c)
  }

  /** Adding keeps the table valid, files `s` under the code returned, and
      keeps every earlier entry; a new string is appended as the last code. */
  lemma AddSpec(t: Table, base: nat, s: Line)
    requires TableValid(t, base)
    ensures var (t', c) := Add(t, s);
      && TableValid(t', base)
      && s in t'.index && t'.index[s] == c
      && t'.codes[..|t.codes|] == t.codes
      && (forall x :: x in t.index ==> x in t'.index && t'.index[x] == t.index[x])
      && (s in t.index ==> t' == t)
      && (s !in t.index ==> |t'.codes| == |t.codes| + 1 && t'.codes[|t.codes|] == s && c == ToChar16(|t.codes|))
  {
    if s !in t.index {
      var c := ToChar16(|t.codes|);
      var t' := Table(t.codes + [s], t.index[s := c]);
      AddKeys(t, base, s, t');
      AddFiled(t, base, s, t');
      AddDistinct(t, base, s, t');
    }
  }

  lemma AddKeys(t: Table, base: nat, s: Line, t': Table)
    requires base <= |t.codes| && KeysAdded(t, base)
    requires t' == Table(t.codes + [s], t.index[s := ToChar16(|t.codes|)])
    ensures KeysAdded(t', base)
  {
    forall x | x in t'.index
      ensures exists i :: base <= i < |t'.codes| && t'.codes[i] == x
    {
      if x == s {
        assert t'.codes[|t.codes|] == s;
      } else {
        var i :| base <= i < |t.codes| && t.codes[i] == x;
        assert t'.codes[i] == x;
      }
    }
  }

  lemma AddFiled(t: Table, base: nat, s: Line, t': Table)
    requires base <= |t.codes| && Filed(t, base) && s !in t.index
    requires t' == Table(t.codes + [s], t.index[s := ToChar16(|t.codes|)])
    ensures Filed(t', base)
  {
    forall i | base <= i < |t'.codes|
      ensures t'.codes[i] in t'.index && t'.index[t'.codes[i]] == ToChar16(i)
    {
      if i < |t.codes| {
        assert t'.codes[i] == t.codes[i];
      }
    }
  }

  lemma AddDistinct(t: Table, base: nat, s: Line, t': Table)
    requires base <= |t.codes| && Filed(t, base) && Distinct(t, base) && s !in t.index
    requires t' == Table(t.codes + [s], t.index[s := ToChar16(|t.codes|)])
    ensures Distinct(t', base)
  {
    forall i, j | base <= i < j < |t'.codes|
      ensures t'.codes[i] != t'.codes[j]
    {
      assert t'.codes[i] == t.codes[i];
      if j < |t.codes| {
        assert t'.codes[j] == t.codes[j];
      }
    }
  }

  /** While the table has at most 0x10000 entries no code has wrapped: the
      dictionary is one-to-one, its codes are at least `base`, and each code
      leads back to its string. */
  lemma TableInjective(t: Table, base: nat, s1: Line, s2: Line)
    requires TableValid(t, base) && |t.codes| <= 0x1_0000
    requires s1 in t.index && s2 in t.index
    ensures base <= t.index[s1] as int < |t.codes| && t.codes[t.index[s1]] == s1
    ensures s1 != s2 ==> t.index[s1] != t.index[s2]
  {
    var i :| base <= i < |t.codes| && t.codes[i] == s1;
    var j :| base <= j < |t.codes| && t.codes[j] == s2;
    if s1 != s2 {
      assert i != j;
    }
  }

  // ---------------------------------------------------------------- lines and words

  /** The line table of a new representer: code 0 is reserved for "\0". */
  function InitialLines(): Table {
    Table([[0 as Char16]], map[])
  }

  /** The word table of a new representer: codes 0..0x7F are reserved for
      the one-char ASCII words, each its own code. */
  function InitialWords(): (t: Table)
    ensures |t.codes| == 0x80 && AsciiPrefix(t)
  {
    Table(seq(0x80, i requires 0 <= i < 0x80 => [ToChar16(i)]), map[])
  }

  predicate AsciiPrefix(t: Table) {
    |t.codes| >= 0x80 && forall i :: 0 <= i < 0x80 ==> t.codes[i] == [ToChar16(i)]
  }

  /** The shortcut of `AddWord`: as written, a one-char word up to 0x80
      inclusive is its own code. */
  predicate OwnCode(w: Line) {
    |w| == 1 && w[0] <= 0x80
  }

  /** `AddWord`: a word taking the shortcut leaves the table alone. */
  function AddWordSpec(t: Table, w: Line): (Table, Char16) {
    if OwnCode(w) then (t, w[0]) else Add(t, w)
  }

  /** `GetWord`: the word with code `c`. */
  function GetWordSpec(t: Table, c: int): Line
    requires 0 <= c < |t.codes|
  {
    t.codes[c]
  }

  /** Adding a word keeps the word table valid, with its ASCII prefix. */
  lemma AddWordValid(t: Table, w: Line)
    requires TableValid(t, 0x80) && AsciiPrefix(t)
    ensures var t' := AddWordSpec(t, w).0;
      TableValid(t', 0x80) && AsciiPrefix(t') && |t.codes| <= |t'.codes|
  {
    AddSpec(t, 0x80, w);
  }

  /** A word decodes to itself, except the one-char word 0x80, whose code is
      also the first code handed out by the dictionary. */
  lemma AddWordRoundTrip(t: Table, w: Line)
    requires TableValid(t, 0x80) && AsciiPrefix(t)
    requires w != [0x80 as Char16] && |AddWordSpec(t, w).0.codes| <= 0x1_0000
    ensures var (t', c) := AddWordSpec(t, w);
      c as int < |t'.codes| && GetWordSpec(t', c as int) == w
  {
    if !OwnCode(w) {
      AddSpec(t, 0x80, w);
      var t' := AddWordSpec(t, w).0;
      TableInjective(t', 0x80, w, w);
    } else {
      assert t.codes[w[0] as int] == [ToChar16(w[0] as int)];
    }
  }

  /** The collision: on a new representer, the one-char word 0x80 and the
      first word the dictionary files get the same code, and that code
      decodes to the other word. */
  lemma AddWordCollision()
    ensures var w := [0x61 as Char16, 0x62 as Char16];
      var (t1, c1) := AddWordSpec(InitialWords(), w);
      var (t2, c2) := AddWordSpec(t1, [0x80 as Char16]);
      && c1 == c2 == 0x80
      && GetWordSpec(t2, c2 as int) == w != [0x80 as Char16]
  {
    var w := [0x61 as Char16, 0x62 as Char16];
    assert !OwnCode(w);
  }

  /** `AddWord` with the shortcut meant for ASCII only: one-char words below
      0x80. */
  function AddWordIntended(t: Table, w: Line): (Table, Char16) {
    if |w| == 1 && w[0] < 0x80 then (t, w[0]) else Add(t, w)
  }

  /** With the corrected shortcut every word decodes to itself. */
  lemma AddWordIntendedRoundTrip(t: Table, w: Line)
    requires TableValid(t, 0x80) && AsciiPrefix(t)
    requires |AddWordIntended(t, w).0.codes| <= 0x1_0000
    ensures var (t', c) := AddWordIntended(t, w);
      c as int < |t'.codes| && GetWordSpec(t', c as int) == w
  {
    if |w| == 1 && w[0] < 0x80 {
      assert t.codes[w[0] as int] == [ToChar16(w[0] as int)];
    } else {
      AddSpec(t, 0x80, w);
      TableInjective(AddWordIntended(t, w).0, 0x80, w, w);
    }
  }

  /** What adding one string does to a table: `AddWord` when `word`,
      `AddLine` otherwise. */
  function AddAs(t: Table, s: Line, word: bool): (Table, Char16) {
    if word then AddWordSpec(t, s) else Add(t, s)
  }

  /** The code of `s` in `t`, once it has been added. */
  function CodeOf(t: Table, s: Line, word: bool): Char16
    requires (word && OwnCode(s)) || s in t.index
  {
    if word && OwnCode(s) then s[0] else t.index[s]
  }

  /** Adding the strings of `ss` in order: the final table and the codes. */
  function Encode(t: Table, ss: seq<Line>, word: bool): (r: (Table, seq<Char16>))
    ensures |r.1| == |ss|
  {
    if ss == [] then (t, [])
    else
      var (t1, cs) := Encode(t, ss[..|ss| - 1], word);
      var (t2, c) := AddAs(t1, ss[|ss| - 1], word);
      (t2, cs + [c])
  }

  /** Encoding one more string of `ss` adds it to the table reached so far. */
  lemma EncodeSnoc(t: Table, ss: seq<Line>, k: nat, word: bool)
    requires k < |ss|
    ensures Encode(t, ss[..k + 1], word) ==
      (AddAs(Encode(t, ss[..k], word).0, ss[k], word).0,
       Encode(t, ss[..k], word).1 + [AddAs(Encode(t, ss[..k], word).0, ss[k], word).1])
  {
    assert ss[..k + 1][..k] == ss[..k];
  }

  /** `t'` keeps every entry of `t`. */
  predicate Extends(t: Table, t': Table) {
    |t.codes| <= |t'.codes| && forall x :: x in t.index ==> x in t'.index && t'.index[x] == t.index[x]
  }

  /** Each string of `ss` has been added to `t`, with code `cs[i]`. */
  predicate Coded(t: Table, ss: seq<Line>, cs: seq<Char16>, word: bool) {
    |cs| == |ss| &&
    forall i :: 0 <= i < |ss| ==> ((word && OwnCode(ss[i])) || ss[i] in t.index) && cs[i] == CodeOf(t, ss[i], word)
  }

  /** A table the representer can hold: the line table from code 1, the
      word table from 0x80 behind its ASCII prefix. */
  ghost predicate TableOk(t: Table, word: bool) {
    if word then TableValid(t, 0x80) && AsciiPrefix(t) else TableValid(t, 1)
  }

  lemma AddAsSpec(t: Table, s: Line, word: bool)
    requires TableOk(t, word)
    ensures var (t', c) := AddAs(t, s, word);
      && TableOk(t', word) && Extends(t, t')
      && ((word && OwnCode(s)) || s in t'.index) && c == CodeOf(t', s, word)
  {
    AddSpec(t, if word then 0x80 else 1, s);
  }

  /** Every code `Encode` returns is the final table's code of its string;
      the table stays one the representer can hold and only grows. */
  lemma {:induction false} EncodeSpec(t: Table, ss: seq<Line>, word: bool)
    requires TableOk(t, word)
    ensures var (t', cs) := Encode(t, ss, word);
      TableOk(t', word) && Extends(t, t') && Coded(t', ss, cs, word)
  {
    if ss != [] {
      var init, s := ss[..|ss| - 1], ss[|ss| - 1];
      EncodeSpec(t, init, word);
      var e := Encode(t, init, word);
      var a := AddAs(e.0, s, word);
      AddAsSpec(e.0, s, word);
      CodedSnoc(e.0, a.0, init, e.1, s, a.1, word);
      assert init + [s] == ss;
    }
  }

  lemma CodedSnoc(t1: Table, t2: Table, init: seq<Line>, cs: seq<Char16>, s: Line, c: Char16, word: bool)
    requires Coded(t1, init, cs, word) && Extends(t1, t2)
    requires ((word && OwnCode(s)) || s in t2.index) && c == CodeOf(t2, s, word)
    ensures Coded(t2, init + [s], cs + [c], word)
  {
    var ss, cs' := init + [s], cs + [c];
    forall i | 0 <= i < |ss|
      ensures ((word && OwnCode(ss[i])) || ss[i] in t2.index) && cs'[i] == CodeOf(t2, ss[i], word)
    {
      if i < |init| {
        assert ss[i] == init[i] && cs'[i] == cs[i];
      }
    }
  }

  /** Equal strings get equal codes, at any distance apart. */
  lemma EncodeSameCode(t: Table, ss: seq<Line>, word: bool, i: nat, j: nat)
    requires TableOk(t, word)
    requires i < |ss| && j < |ss| && ss[i] == ss[j]
    ensures Encode(t, ss, word).1[i] == Encode(t, ss, word).1[j]
  {
    EncodeSpec(t, ss, word);
  }

  /** Lines: while no code has wrapped, distinct lines get distinct codes,
      no line gets code 0, and every code leads back to its line. */
  lemma EncodeLinesDistinct(t: Table, ss: seq<Line>, i: nat, j: nat)
    requires TableOk(t, false) && |Encode(t, ss, false).0.codes| <= 0x1_0000
    requires i < |ss| && j < |ss|
    ensures var (t', cs) := Encode(t, ss, false);
      && 0 < cs[i] as int < |t'.codes|
      && t'.codes[cs[i]] == ss[i]
      && (ss[i] != ss[j] ==> cs[i] != cs[j])
  {
    EncodeSpec(t, ss, false);
    TableInjective(Encode(t, ss, false).0, 1, ss[i], ss[j]);
  }

  /** Words: while no code has wrapped, every code leads back to its word,
      except for the one-char word 0x80. */
  lemma EncodeWordsRoundTrip(t: Table, ss: seq<Line>, i: nat)
    requires TableOk(t, true) && |Encode(t, ss, true).0.codes| <= 0x1_0000
    requires i < |ss| && ss[i] != [0x80 as Char16]
    ensures var (t', cs) := Encode(t, ss, true);
      cs[i] as int < |t'.codes| && GetWordSpec(t', cs[i] as int) == ss[i]
  {
    EncodeSpec(t, ss, true);
    var (t', cs) := Encode(t, ss, true);
    if OwnCode(ss[i]) {
      assert t'.codes[ss[i][0] as int] == [ToChar16(ss[i][0] as int)];
    } else {
      TableInjective(t', 0x80, ss[i], ss[i]);
    }
  }

  // ---------------------------------------------------------------- words of a line

  /** The .NET character classes the tokenizer asks about; Unicode
      classification is not modelled, so they are parameters. */
  datatype CharClasses = CharClasses(
    isLetter: Char16 -> bool, isLetterOrDigit: Char16 -> bool, isDigit: Char16 -> bool)

  const Space: Char16 := 0x20
  const Tab: Char16 := 0x09

  /** What continues a word: letters or digits after a letter, digits after
      a digit, the same character in a run of spaces or tabs. */
  datatype Run = LetterOrDigit | Digit | Same(c: Char16)

  predicate InRun(cls: CharClasses, run: Run, x: Char16) {
    match run
    case LetterOrDigit => cls.isLetterOrDigit(x)
    case Digit => cls.isDigit(x)
    case Same(c) => x == c
  }

  /** The end of the run of `run` characters from `i`. */
  function RunEnd(cls: CharClasses, line: Line, i: nat, run: Run): (e: nat)
    requires i <= |line|
    ensures i <= e <= |line|
    ensures forall j :: i <= j < e ==> InRun(cls, run, line[j])
    ensures e == |line| || !InRun(cls, run, line[e])
    decreases |line| - i
  {
    if i < |line| && InRun(cls, run, line[i]) then RunEnd(cls, line, i + 1, run) else i
  }

  /** How the word starting with `c` continues, if it does. */
  function RunOf(cls: CharClasses, c: Char16): Option<Run> {
    if cls.isLetter(c) then Some(LetterOrDigit)
    else if cls.isDigit(c) then Some(Digit)
    else if c == Space || c == Tab then Some(Same(c))
    else None
  }

  /** `line[r]` is one word: its first character and, when that starts a
      run, the longest run after it. */
  ghost predicate IsWord(cls: CharClasses, line: Line, r: Range) {
    && 0 <= r.start < r.end <= |line|
    && match RunOf(cls, line[r.start])
       case None => r.end == r.start + 1
       case Some(run) =>
         && (forall j :: r.start < j < r.end ==> InRun(cls, run, line[j]))
         && (r.end == |line| || !InRun(cls, run, line[r.end]))
  }

  /** The end of the word starting at `start`. */
  function WordEnd(cls: CharClasses, line: Line, start: nat): (e: nat)
    requires start < |line|
    ensures start < e <= |line|
  {
    match RunOf(cls, line[start])
    case None => start + 1
    case Some(run) => RunEnd(cls, line, start + 1, run)
  }

  lemma WordEndIsWord(cls: CharClasses, line: Line, start: nat)
    requires start < |line|
    ensures IsWord(cls, line, Range(start, WordEnd(cls, line, start)))
  {
  }

  /** The words of `line` from `i` on, as `EnumerateWords` yields them. */
  function WordRanges(cls: CharClasses, line: Line, i: nat): (rs: seq<Range>)
    requires i <= |line|
    ensures forall k :: 0 <= k < |rs| ==> i <= rs[k].start < rs[k].end <= |line|
    decreases |line| - i
  {
    if i == |line| then []
    else
      var e := WordEnd(cls, line, i);
      [Range(i, e)] + WordRanges(cls, line, e)
  }

  /** The words tile the line from `i` on, each a whole word. */
  lemma {:induction false} WordRangesSpec(cls: CharClasses, line: Line, i: nat)
    requires i <= |line|
    ensures var rs := WordRanges(cls, line, i);
      Tiles(rs, i, |line|) && forall k :: 0 <= k < |rs| ==> IsWord(cls, line, rs[k])
    decreases |line| - i
  {
    if i < |line| {
      var e := WordEnd(cls, line, i);
      WordEndIsWord(cls, line, i);
      WordRangesSpec(cls, line, e);
      var rest := WordRanges(cls, line, e);
      var rs := WordRanges(cls, line, i);
      assert rs == [Range(i, e)] + rest;
      assert forall k :: 1 <= k < |rs| ==> rs[k] == rest[k - 1];
    }
  }

  /** `rs` cuts `[lo, hi)` into nonempty ranges, in order, without gaps. */
  predicate Tiles(rs: seq<Range>, lo: int, hi: int) {
    && (rs == [] <==> lo == hi)
    && (rs != [] ==> rs[0].start == lo && rs[|rs| - 1].end == hi)
    && (forall k :: 0 <= k < |rs| ==> rs[k].start < rs[k].end)
    && (forall k :: 0 <= k < |rs| - 1 ==> rs[k].end == rs[k + 1].start)
  }

  /** The texts of ranges inside `line`. */
  function Texts(line: Line, rs: seq<Range>): (ws: seq<Line>)
    requires forall k :: 0 <= k < |rs| ==> 0 <= rs[k].start <= rs[k].end <= |line|
    ensures |ws| == |rs|
    ensures forall k :: 0 <= k < |rs| ==> ws[k] == line[rs[k].start..rs[k].end]
  {
    if rs == [] then [] else Texts(line, rs[..|rs| - 1]) + [line[rs[|rs| - 1].start..rs[|rs| - 1].end]]
  }

  /** The words of a line, in order. */
  function LineWords(cls: CharClasses, line: Line): seq<Line> {
    Texts(line, WordRanges(cls, line, 0))
  }

  function Concat(ws: seq<Line>): Line {
    if ws == [] then [] else Concat(ws[..|ws| - 1]) + ws[|ws| - 1]
  }

  /** The words of a line, put back together, are the line. */
  lemma WordsCover(cls: CharClasses, line: Line)
    ensures Concat(LineWords(cls, line)) == line
  {
    var rs := WordRanges(cls, line, 0);
    WordRangesSpec(cls, line, 0);
    TilesConcat(line, rs, 0, |line|);
  }

  lemma {:induction false} TilesConcat(line: Line, rs: seq<Range>, lo: nat, hi: nat)
    requires lo <= hi <= |line| && Tiles(rs, lo, hi)
    ensures forall k :: 0 <= k < |rs| ==> 0 <= rs[k].start <= rs[k].end <= |line|
    ensures Concat(Texts(line, rs)) == line[lo..hi]
    decreases |rs|
  {
    TilesBounds(rs, lo, hi);
    if rs != [] {
      var init := rs[..|rs| - 1];
      var last := rs[|rs| - 1];
      if init == [] {
        assert Texts(line, rs) == [line[lo..hi]];
        assert Concat([line[lo..hi]]) == Concat([]) + line[lo..hi];
      } else {
        assert rs[|rs| - 2].end == last.start;
        assert Tiles(init, lo, last.start);
        TilesConcat(line, init, lo, last.start);
        TextsSnoc(line, rs);
        assert line[lo..hi] == line[lo..last.start] + line[last.start..hi];
      }
    }
  }

  /** The texts of ranges, put together, end with the last range's text. */
  lemma TextsSnoc(line: Line, rs: seq<Range>)
    requires rs != [] && forall k :: 0 <= k < |rs| ==> 0 <= rs[k].start <= rs[k].end <= |line|
    ensures Concat(Texts(line, rs)) ==
      Concat(Texts(line, rs[..|rs| - 1])) + line[rs[|rs| - 1].start..rs[|rs| - 1].end]
  {
    var ts := Texts(line, rs);
    assert ts[..|ts| - 1] == Texts(line, rs[..|rs| - 1]);
  }

  /** The ranges of a tiling lie inside it. */
  lemma {:induction false} TilesBounds(rs: seq<Range>, lo: int, hi: int)
    requires Tiles(rs, lo, hi)
    ensures forall k :: 0 <= k < |rs| ==> lo <= rs[k].start < rs[k].end <= hi
  {
    forall k | 0 <= k < |rs|
      ensures lo <= rs[k].start < rs[k].end <= hi
    {
      TileAt(rs, lo, hi, k);
    }
  }

  lemma {:induction false} TileAt(rs: seq<Range>, lo: int, hi: int, k: nat)
    requires Tiles(rs, lo, hi) && k < |rs|
    ensures lo <= rs[k].start && rs[k].end <= hi
  {
    TileFrom(rs, lo, k);
    TileTo(rs, hi, k);
  }

  lemma {:induction false} TileFrom(rs: seq<Range>, lo: int, k: nat)
    requires k < |rs| && rs[0].start == lo
    requires forall j :: 0 <= j < |rs| ==> rs[j].start < rs[j].end
    requires forall j :: 0 <= j < |rs| - 1 ==> rs[j].end == rs[j + 1].start
    ensures lo <= rs[k].start
  {
    if k > 0 {
      TileFrom(rs, lo, k - 1);
    }
  }

  lemma {:induction false} TileTo(rs: seq<Range>, hi: int, k: nat)
    requires k < |rs| && rs[|rs| - 1].end == hi
    requires forall j :: 0 <= j < |rs| ==> rs[j].start < rs[j].end
    requires forall j :: 0 <= j < |rs| - 1 ==> rs[j].end == rs[j + 1].start
    ensures rs[k].end <= hi
    decreases |rs| - k
  {
    if k < |rs| - 1 {
      TileTo(rs, hi, k + 1);
    }
  }

  /** `EnumerateWords`: walks the line, one word per outer step, the inner
      loops extending the word over its run. */
  method EnumerateWords(cls: CharClasses, line: Line) returns (ranges: seq<Range>)
    ensures ranges == WordRanges(cls, line, 0)
  {
    ranges := [];
    var i := 0;
    while i < |line|
      invariant i <= |line|
      invariant ranges + WordRanges(cls, line, i) == WordRanges(cls, line, 0)
      decreases |line| - i
    {
      var start := i;
      var c := line[i];
      i := i + 1;
      var run := RunOf(cls, c);
      if run.Some? {
        while i < |line| && InRun(cls, run.value, line[i])
          invariant start < i <= |line|
          invariant RunEnd(cls, line, i, run.value) == WordEnd(cls, line, start)
          decreases |line| - i
        {
          i := i + 1;
        }
      }
      assert i == WordEnd(cls, line, start);
      ranges := ranges + [Range(start, i)];
    }
  }

  // ---------------------------------------------------------------- the representer

  class CharRepresenter {
    var charToLine: seq<Line>
    var lineToChar: map<Line, Char16>
    var charToWord: seq<Line>
    var wordToChar: map<Line, Char16>

    function Lines(): Table
      reads this
    {
      Table(charToLine, lineToChar)
    }

    function Words(): Table
      reads this
    {
      Table(charToWord, wordToChar)
    }

    /** Code 0 of the line table stays reserved for "\0", the ASCII codes of
        the word table for the ASCII words. */
    ghost predicate Valid()
      reads this
    {
      && TableValid(Lines(), 1) && charToLine[0] == [0 as Char16]
      && TableValid(Words(), 0x80) && AsciiPrefix(Words())
    }

    /** The number of line codes handed out, "\0" included: at least 1,
        and a new line is given the code it truncates to. */
    function MaxLineChar(): (n: nat)
      reads this
      ensures Valid() ==> n >= 1
      ensures forall s :: s !in Lines().index ==> Add(Lines(), s).1 == ToChar16(n)
    {
      |charToLine|
    }

    /** The number of word codes handed out, the ASCII ones included: at
        least 0x80, and a new word is given the code it truncates to. */
    function MaxWordChar(): (n: nat)
      reads this
      ensures Valid() ==> n >= 0x80
      ensures forall s :: s !in Words().index ==> Add(Words(), s).1 == ToChar16(n)
    {
      |charToWord|
    }

    /** A new representer: the line table holds only "\0" at code 0, the
        word table the 0x80 one-char ASCII words at their own codes. */
    constructor ()
      ensures Valid() && Lines() == InitialLines() && Words() == InitialWords()
      ensures MaxLineChar() == 1 && MaxWordChar() == 0x80
    {
      charToLine := [[0 as Char16]];
      lineToChar := map[];
      var words: seq<Line> := [];
      for i := 0 to 0x80
        invariant |words| == i && forall k :: 0 <= k < i ==> words[k] == [ToChar16(k)]
      {
        words := words + [[ToChar16(i)]];
      }
      charToWord := words;
      wordToChar := map[];
    }

    method AddLine(line: Line) returns (c: Char16)
      requires Valid()
      modifies this
      ensures Valid() && (Lines(), c) == Add(old(Lines()), line) && Words() == old(Words())
    {
      AddSpec(Lines(), 1, line);
      if line in lineToChar {
        c := lineToChar[line];
      } else {
        c := ToChar16(|charToLine|);
        lineToChar := lineToChar[line := c];
        charToLine := charToLine + [line];
      }
    }

    method AddWord(word: Line) returns (c: Char16)
      requires Valid()
      modifies this
      ensures Valid() && (Words(), c) == AddWordSpec(old(Words()), word) && Lines() == old(Lines())
    {
      AddWordValid(Words(), word);
      if |word| == 1 && word[0] <= 0x80 {
        return word[0];
      }
      if word in wordToChar {
        c := wordToChar[word];
      } else {
        c := ToChar16(|charToWord|);
        wordToChar := wordToChar[word := c];
        charToWord := charToWord + [word];
      }
    }

    /** One char per word of `line`: the code `AddWord` gives it, the words
        added in order. */
    method WordsToChars(cls: CharClasses, line: Line) returns (s: seq<Char16>)
      requires Valid()
      modifies this
      ensures Valid() && (Words(), s) == Encode(old(Words()), LineWords(cls, line), true)
      ensures Lines() == old(Lines())
    {
      var ranges := EnumerateWords(cls, line);
      ghost var ws := LineWords(cls, line);
      s := [];
      for k := 0 to |ranges|
        invariant Valid() && Lines() == old(Lines())
        invariant (Words(), s) == Encode(old(Words()), ws[..k], true)
      {
        var w := line[ranges[k].start..ranges[k].end];
        assert w == ws[k];
        EncodeSnoc(old(Words()), ws, k, true);
        var c := AddWord(w);
        s := s + [c];
      }
      assert ws[..|ranges|] == ws;
    }

    /** One char per line: the code `AddLine` gives it, the lines added in order. */
    method LinesToChars(lines: seq<Line>) returns (s: seq<Char16>)
      requires Valid()
      modifies this
      ensures Valid() && (Lines(), s) == Encode(old(Lines()), lines, false)
      ensures Words() == old(Words())
    {
      s := [];
      for k := 0 to |lines|
        invariant Valid() && Words() == old(Words())
        invariant (Lines(), s) == Encode(old(Lines()), lines[..k], false)
      {
        EncodeSnoc(old(Lines()), lines, k, false);
        var c := AddLine(lines[k]);
        s := s + [c];
      }
      assert lines[..|lines|] == lines;
    }

    function GetWord(c: int): (w: Line)
      reads this
      requires 0 <= c < |charToWord|
      ensures w == GetWordSpec(Words(), c)
    {
      charToWord[c]
    }
  }
}
