// What lib/cf.c's parser of indented configuration files emits, and that it
// is the nesting the indentation shows, whatever the consumer expects.
module IndentRules {
  import opened Seqs

  /** A file as `fgets` delivers it; each line comes with the files its words
      would open if it turned out to be an "include" line. */
  datatype File = File(lines: seq<Line>)
  datatype Line = Line(raw: string, inc: seq<File>)

  type Words = seq<string>

  /** What the parser hands over. `opens` is the consumer's answer to a line:
      whether it expects a block there (`expstart`). */
  datatype Event = Start | End | Item(w: Words, opens: bool)

  datatype Env = Env(
    tok: string -> Words,                // `tokenize`
    wants: (seq<Event>, Words) -> bool,  // the consumer sets `expstart` after this line
    quit: seq<Event> -> bool)            // the consumer goes away after this event

  // ----- One line -----

  predicate IsSpace(c: char) {
    c == ' ' || 9 <= c as int <= 13
  }

  /** The white space of the C locale. */
  const BLANKS := " \t\n\r\U{0b}\U{0c}"

  /** What is left when the white space at the end is gone. */
  function Trim(s: string): (t: string)
    ensures t <= s && (t != [] ==> t[|t| - 1] !in BLANKS)
    ensures forall i :: |t| <= i < |s| ==> s[i] in BLANKS
  {
    if s != [] && IsSpace(s[|s| - 1]) then Trim(s[..|s| - 1]) else s
  }

  /** The column of the first character from p on that is no blank. */
  function Column(s: string, p: nat, ind: nat): (r: (nat, nat))
    requires p <= |s|
    ensures r.1 <= |s|
    decreases |s| - p
  {
    if p < |s| && s[p] == ' ' then Column(s, p + 1, ind + 1)
    else if p < |s| && s[p] == '\t' then Column(s, p + 1, ind - ind % 8 + 8)
    else (ind, p)
  }

  predicate Skipped(text: string) {
    var (ind, p) := Column(text, 0, 0);
    p == |text| || text[p] == '#'
  }

  function Indent(text: string): nat {
    Column(text, 0, 0).0
  }

  /** The columns reached one by one: a space leads to the next column, a tab
      to the next multiple of 8, and the first other character ends it. */
  ghost predicate Ruler(s: string, cols: seq<nat>) {
    var p := |cols| - 1;
    && 0 <= p <= |s| && cols[0] == 0
    && (forall i :: 0 <= i < p ==> s[i] == ' ' || s[i] == '\t')
    && (forall i :: 0 <= i < p && s[i] == ' ' ==> cols[i + 1] == cols[i] + 1)
    && (forall i :: 0 <= i < p && s[i] == '\t' ==> cols[i + 1] % 8 == 0 && cols[i] < cols[i + 1] <= cols[i] + 8)
    && (p < |s| ==> s[p] != ' ' && s[p] != '\t')
  }

  /** Measuring follows the ruler, from any place on. */
  lemma {:induction false} ColumnOnRuler(s: string, cols: seq<nat>, p: nat)
    requires Ruler(s, cols) && p < |cols|
    ensures Column(s, p, cols[p]) == (cols[|cols| - 1], |cols| - 1)
    decreases |cols| - p
  {
    if p < |cols| - 1 {
      ColumnOnRuler(s, cols, p + 1);
    }
  }

  /** Every line has a ruler. */
  lemma {:induction false} RulerOf(s: string) returns (cols: seq<nat>)
    ensures Ruler(s, cols) && Column(s, 0, 0) == (cols[|cols| - 1], |cols| - 1)
  {
    cols := [0];
    while |cols| - 1 < |s| && (s[|cols| - 1] == ' ' || s[|cols| - 1] == '\t')
      invariant 0 < |cols| <= |s| + 1 && cols[0] == 0
      invariant forall i :: 0 <= i < |cols| - 1 ==> s[i] == ' ' || s[i] == '\t'
      invariant forall i :: 0 <= i < |cols| - 1 && s[i] == ' ' ==> cols[i + 1] == cols[i] + 1
      invariant forall i :: 0 <= i < |cols| - 1 && s[i] == '\t' ==>
        cols[i + 1] % 8 == 0 && cols[i] < cols[i + 1] <= cols[i] + 8
    {
      var ind := cols[|cols| - 1];
      cols := cols + [if s[|cols| - 1] == ' ' then ind + 1 else 8 * (ind / 8 + 1)];
    }
    ColumnOnRuler(s, cols, 0);
  }

  /** Blanks are counted up to the first other character; n spaces make column n. */
  lemma SpacesColumn(n: nat, rest: string)
    requires rest != [] ==> rest[0] != ' ' && rest[0] != '\t'
    ensures Indent(seq(n, _ => ' ') + rest) == n
  {
    ColumnOnRuler(seq(n, _ => ' ') + rest, seq(n + 1, i => i), 0);
  }

  /** Lines with nothing but blanks before their end or a # are passed over. */
  lemma SkippedMeans(text: string, p: nat)
    requires p <= |text| && forall i :: 0 <= i < p ==> text[i] == ' ' || text[i] == '\t'
    requires p < |text| ==> text[p] != ' ' && text[p] != '\t'
    ensures Skipped(text) <==> p == |text| || text[p] == '#'
  {
    var cols := RulerOf(text);
  }

  datatype Kind = Nothing | Include | Plain(w: Words)

  /** What a line's words mean, with so many blocks open. */
  function Classify(w: Words, depth: nat): Kind {
    if w == [] then Nothing
    else if depth == 0 && w[0] == "include" then Include
    else if w[0] == "start" || w[0] == "end" || w[0] == "eof" then Nothing
    else Plain(w)
  }

  // ----- The off-side rule -----

  /** Open columns, outermost first: strictly increasing from 0. */
  predicate Stack(st: seq<nat>) {
    st != [] && st[0] == 0 && forall j, k :: 0 <= j < k < |st| ==> st[j] < st[k]
  }

  function Top(st: seq<nat>): nat
    requires st != []
  {
    st[|st| - 1]
  }

  /** The columns open in a line at column ind: those of st below ind, and ind. */
  function Levels(st: seq<nat>, ind: nat): (r: seq<nat>)
    requires Stack(st)
    ensures Stack(r) && Top(r) == ind
    decreases |st|
  {
    if ind > Top(st) then st + [ind]
    else if ind < Top(st) then Levels(st[..|st| - 1], ind)
    else st
  }

  /** Exactly the columns below ind are kept, and ind is put on top of them. */
  lemma {:induction false} LevelsExact(st: seq<nat>, ind: nat, n: nat)
    requires Stack(st) && n <= |st| && (forall j :: 0 <= j < n ==> st[j] < ind)
    requires forall j :: n <= j < |st| ==> st[j] >= ind
    ensures Levels(st, ind) == st[..n] + [ind]
    decreases |st|
  {
    if ind > Top(st) {
      assert st[..n] == st;
    } else if ind < Top(st) {
      LevelsExact(st[..|st| - 1], ind, n);
      assert st[..|st| - 1][..n] == st[..n];
    } else {
      assert Top(st) == ind;
      assert n < |st| && st[n] >= ind;
      assert st[..|st| - 1] + [ind] == st;
    }
  }

  /** How many columns are kept. */
  function Kept(st: seq<nat>, ind: nat): (n: nat)
    requires Stack(st)
    ensures n <= |st| && (forall j :: 0 <= j < n ==> st[j] < ind) && forall j :: n <= j < |st| ==> st[j] >= ind
  {
    if st[|st| - 1] < ind then |st| else if |st| == 1 then 0 else Kept(st[..|st| - 1], ind)
  }

  function Down(st: seq<nat>, ind: nat): seq<Event>
    requires Stack(st)
    decreases |st|
  {
    if ind > Top(st) then [Start]
    else if ind < Top(st) then [End] + Down(st[..|st| - 1], ind)
    else []
  }

  /** What is emitted between two lines. */
  function Gap(st: seq<nat>, expected: bool, ind: nat): seq<Event>
    requires Stack(st)
  {
    if !expected then Down(st, ind)
    else if ind > Top(st) then []
    else [End] + Down(st, ind)
  }

  function Ends(n: nat): (es: seq<Event>)
    ensures |es| == n && forall i :: 0 <= i < n ==> es[i] == End
  {
    seq(n, _ => End)
  }

  /** On the way down, one End for each column deeper than ind, and a Start if
      ind is a new column. */
  lemma {:induction false} DownExact(st: seq<nat>, ind: nat, n: nat)
    requires Stack(st) && n < |st| && st[|st| - n - 1] <= ind
    requires forall j :: |st| - n <= j < |st| ==> st[j] > ind
    ensures Down(st, ind) == Ends(n) + if st[|st| - n - 1] == ind then [] else [Start]
    decreases n
  {
    var last := if st[|st| - n - 1] == ind then [] else [Start];
    if n == 0 {
      Unit(last);
    } else {
      var below := st[..|st| - 1];
      assert below[|below| - (n - 1) - 1] == st[|st| - n - 1];
      DownExact(below, ind, n - 1);
      assert Ends(n) == [End] + Ends(n - 1);
      Assoc([End], Ends(n - 1), last);
    }
  }

  /** Between two lines: nothing if an expected block begins; otherwise an End
      for the block that was expected, if any, and the way down. */
  lemma GapExact(st: seq<nat>, expected: bool, ind: nat, n: nat)
    requires Stack(st) && n < |st| && st[|st| - n - 1] <= ind
    requires forall j :: |st| - n <= j < |st| ==> st[j] > ind
    ensures Gap(st, expected, ind) ==
      if expected && ind > st[|st| - 1] then []
      else Ends(n + if expected then 1 else 0) + if st[|st| - n - 1] == ind then [] else [Start]
  {
    DownExact(st, ind, n);
    var last := if st[|st| - n - 1] == ind then [] else [Start];
    Assoc([End], Ends(n), last);
    assert Ends(n + 1) == [End] + Ends(n);
  }

  // ----- A whole file -----

  /** Everything handed over by the end of a file, after h. */
  ghost function FileOut(env: Env, f: File, h: seq<Event>): seq<Event>
    decreases f, |f.lines| + 1
  {
    LinesOut(env, f, 0, h, [0], false)
  }

  ghost function LinesOut(env: Env, f: File, i: nat, h: seq<Event>, st: seq<nat>, expected: bool): seq<Event>
    requires i <= |f.lines| && Stack(st)
    decreases f, |f.lines| - i, 1, 0
  {
    if i == |f.lines| then h + Gap(st, expected, 0)
    else
      var text := Trim(f.lines[i].raw);
      if Skipped(text) then LinesOut(env, f, i + 1, h, st, expected)
      else
        Tail(env, f, i, h + Gap(st, expected, Indent(text)), Levels(st, Indent(text)))
  }

  /** From the words of line i on, h1 being out and st1 being open. */
  ghost function Tail(env: Env, f: File, i: nat, h1: seq<Event>, st1: seq<nat>): seq<Event>
    requires i < |f.lines| && Stack(st1)
    decreases f, |f.lines| - i, 0, |f.lines[i].inc| + 1
  {
    match Classify(env.tok(Trim(f.lines[i].raw)), |st1| - 1)
    case Nothing => LinesOut(env, f, i + 1, h1, st1, false)
    case Include => LinesOut(env, f, i + 1, IncludeOut(env, f, i, 0, h1), st1, false)
    case Plain(w) => LinesOut(env, f, i + 1, h1 + [Item(w, env.wants(h1, w))], st1, env.wants(h1, w))
  }

  ghost function IncludeOut(env: Env, f: File, i: nat, j: nat, h: seq<Event>): seq<Event>
    requires i < |f.lines| && j <= |f.lines[i].inc|
    decreases f, |f.lines| - i, 0, |f.lines[i].inc| - j
  {
    if j == |f.lines[i].inc| then h else IncludeOut(env, f, i, j + 1, FileOut(env, f.lines[i].inc[j], h))
  }

  // ----- The structure the text shows, without a consumer -----

  /** The lines of a file with how many blocks each is in. */
  ghost function FileShape(tok: string -> Words, f: File): seq<(Words, int)>
    decreases f, |f.lines| + 1
  {
    LinesShape(tok, f, 0, [0])
  }

  ghost function LinesShape(tok: string -> Words, f: File, i: nat, st: seq<nat>): seq<(Words, int)>
    requires i <= |f.lines| && Stack(st)
    decreases f, |f.lines| - i, 1, 0
  {
    if i == |f.lines| then []
    else
      var text := Trim(f.lines[i].raw);
      if Skipped(text) then LinesShape(tok, f, i + 1, st)
      else
        var st1 := Levels(st, Indent(text));
        (match Classify(tok(text), |st1| - 1)
         case Nothing => []
         case Include => IncludeShape(tok, f, i, 0)
         case Plain(w) => [(w, |st1| - 1)]) + LinesShape(tok, f, i + 1, st1)
  }

  ghost function IncludeShape(tok: string -> Words, f: File, i: nat, j: nat): seq<(Words, int)>
    requires i < |f.lines| && j <= |f.lines[i].inc|
    decreases f, |f.lines| - i, 0, |f.lines[i].inc| - j
  {
    if j == |f.lines[i].inc| then [] else FileShape(tok, f.lines[i].inc[j]) + IncludeShape(tok, f, i, j + 1)
  }

  // ----- What that structure is, line by line -----

  /** The columns open after lines at these columns. */
  ghost function OpenAfter(cols: seq<nat>): (st: seq<nat>)
    ensures Stack(st)
  {
    if cols == [] then [0] else Levels(OpenAfter(cols[..|cols| - 1]), cols[|cols| - 1])
  }

  /** Some line is at column x, and none after it is further to the left. */
  ghost predicate Encloses(cols: seq<nat>, x: nat) {
    exists j :: 0 <= j < |cols| && cols[j] == x && forall k :: j < k < |cols| ==> cols[k] >= x
  }

  lemma EnclosesSnoc(cols: seq<nat>, x: nat)
    requires cols != []
    ensures Encloses(cols, x) <==>
      (x == cols[|cols| - 1] || (x < cols[|cols| - 1] && Encloses(cols[..|cols| - 1], x)))
  {
    var n := |cols| - 1;
    var init := cols[..n];
    if x == cols[n] {
      assert cols[n] == x;
    }
    if x < cols[n] && Encloses(init, x) {
      var j :| 0 <= j < n && init[j] == x && forall k :: j < k < n ==> init[k] >= x;
      assert cols[j] == x && forall k :: j < k < n ==> cols[k] == init[k];
    }
    if Encloses(cols, x) && x != cols[n] {
      var j :| 0 <= j < |cols| && cols[j] == x && forall k :: j < k < |cols| ==> cols[k] >= x;
      assert init[j] == x && forall k :: j < k < n ==> init[k] == cols[k];
    }
  }

  /** The open columns are 0 and those of the enclosing lines. */
  lemma {:induction false} OpenMeans(cols: seq<nat>, x: nat)
    ensures x in OpenAfter(cols) <==> x == 0 || Encloses(cols, x)
    decreases |cols|
  {
    if cols != [] {
      OpenMeans(cols[..|cols| - 1], x);
      EnclosesSnoc(cols, x);
      InLevels(OpenAfter(cols[..|cols| - 1]), cols[|cols| - 1], x);
    }
  }

  lemma InLevels(st: seq<nat>, ind: nat, x: nat)
    requires Stack(st)
    ensures x in Levels(st, ind) <==> x == ind || (x < ind && x in st)
  {
    var n := Kept(st, ind);
    LevelsExact(st, ind, n);
    if x < ind && x in st {
      var j :| 0 <= j < |st| && st[j] == x;
      assert st[..n][j] == x;
    }
  }

  /** The columns of the first i lines that are not passed over. */
  ghost function Columns(f: File, i: nat): seq<nat>
    requires i <= |f.lines|
  {
    if i == 0 then []
    else
      var text := Trim(f.lines[i - 1].raw);
      Columns(f, i - 1) + if Skipped(text) then [] else [Indent(text)]
  }

  /** What line i contributes: nothing if it is passed over or has no words,
      the included files if it is an "include" line in no block, nothing if it
      is one of the tokens the parser itself makes, and else its words, with
      the number of blocks it is in. */
  ghost function LineShape(tok: string -> Words, f: File, i: nat): seq<(Words, int)>
    requires i < |f.lines|
  {
    var text := Trim(f.lines[i].raw);
    var w, depth := tok(text), |OpenAfter(Columns(f, i + 1))| - 1;
    if Skipped(text) || w == [] then []
    else if w[0] == "include" && depth == 0 then Concat(Shapes(tok, f.lines[i].inc))
    else if w[0] in ["start", "end", "eof"] then []
    else [(w, depth)]
  }

  ghost function Shapes(tok: string -> Words, inc: seq<File>): (parts: seq<seq<(Words, int)>>)
    ensures |parts| == |inc| && forall j :: 0 <= j < |inc| ==> parts[j] == FileShape(tok, inc[j])
  {
    seq(|inc|, j requires 0 <= j < |inc| => FileShape(tok, inc[j]))
  }

  /** The structure of a file is what its lines contribute, one by one. */
  lemma ShapeByLine(tok: string -> Words, f: File)
    ensures FileShape(tok, f) ==
      Concat(seq(|f.lines|, i requires 0 <= i < |f.lines| => LineShape(tok, f, i)))
  {
    var parts := seq(|f.lines|, i requires 0 <= i < |f.lines| => LineShape(tok, f, i));
    ShapeFrom(tok, f, 0, parts);
    assert parts[0..] == parts;
  }

  lemma {:induction false} ShapeFrom(tok: string -> Words, f: File, i: nat, parts: seq<seq<(Words, int)>>)
    requires i <= |f.lines| == |parts| && forall k :: 0 <= k < |parts| ==> parts[k] == LineShape(tok, f, k)
    ensures LinesShape(tok, f, i, OpenAfter(Columns(f, i))) == Concat(parts[i..])
    decreases |f.lines| - i
  {
    hide LineShape, Columns, OpenAfter;
    if i < |f.lines| {
      ShapeFrom(tok, f, i + 1, parts);
      assert parts[i..][1..] == parts[i + 1..];
      LineStep(tok, f, i);
    }
  }

  /** Line i, and the columns open after it. */
  lemma LineStep(tok: string -> Words, f: File, i: nat)
    requires i < |f.lines|
    ensures LinesShape(tok, f, i, OpenAfter(Columns(f, i))) ==
      LineShape(tok, f, i) + LinesShape(tok, f, i + 1, OpenAfter(Columns(f, i + 1)))
  {
    hide LinesShape, Levels, Skipped, Trim, IncludeShape, Indent, Shapes, Concat, OpenAfter;
    var text := Trim(f.lines[i].raw);
    var st := OpenAfter(Columns(f, i));
    ShapeUnfold(tok, f, i, st);
    IncludeParts(tok, f, i);
    OpenNext(f, i);
    if Skipped(text) {
      Unit(LinesShape(tok, f, i + 1, st));
    }
  }

  lemma OpenNext(f: File, i: nat)
    requires i < |f.lines|
    ensures var text := Trim(f.lines[i].raw);
      var st := OpenAfter(Columns(f, i));
      OpenAfter(Columns(f, i + 1)) == if Skipped(text) then st else Levels(st, Indent(text))
  {
    hide Levels, Skipped, Trim, Indent;
    Unit(Columns(f, i));
    var cols := Columns(f, i) + [Indent(Trim(f.lines[i].raw))];
    assert cols[..|cols| - 1] == Columns(f, i);
  }

  lemma ShapeUnfold(tok: string -> Words, f: File, i: nat, st: seq<nat>)
    requires i < |f.lines| && Stack(st)
    ensures var text := Trim(f.lines[i].raw);
      LinesShape(tok, f, i, st) ==
        if Skipped(text) then LinesShape(tok, f, i + 1, st)
        else
          var st1 := Levels(st, Indent(text));
          (match Classify(tok(text), |st1| - 1)
           case Nothing => []
           case Include => IncludeShape(tok, f, i, 0)
           case Plain(w) => [(w, |st1| - 1)]) + LinesShape(tok, f, i + 1, st1)
  {
    hide Levels, Skipped, Trim, IncludeShape, Indent;
  }

  lemma IncludeParts(tok: string -> Words, f: File, i: nat)
    requires i < |f.lines|
    ensures IncludeShape(tok, f, i, 0) == Concat(Shapes(tok, f.lines[i].inc))
  {
    hide FileShape;
    var parts := Shapes(tok, f.lines[i].inc);
    IncludeFrom(tok, f, i, 0, parts);
    assert parts[0..] == parts;
  }

  lemma {:induction false} IncludeFrom(tok: string -> Words, f: File, i: nat, j: nat, parts: seq<seq<(Words, int)>>)
    requires i < |f.lines| && j <= |f.lines[i].inc| == |parts|
    requires forall k :: 0 <= k < |parts| ==> parts[k] == FileShape(tok, f.lines[i].inc[k])
    ensures IncludeShape(tok, f, i, j) == Concat(parts[j..])
    decreases |f.lines[i].inc| - j
  {
    if j < |f.lines[i].inc| {
      IncludeFrom(tok, f, i, j + 1, parts);
      assert parts[j..][1..] == parts[j + 1..];
    }
  }

  /** The parser's stack of 80 columns is never too small. */
  ghost predicate Fits(f: File)
    decreases f, |f.lines| + 1
  {
    LinesFit(f, 0, [0])
  }

  ghost predicate LinesFit(f: File, i: nat, st: seq<nat>)
    requires i <= |f.lines| && Stack(st)
    decreases f, |f.lines| - i
  {
    |st| <= 80 && (i < |f.lines| ==>
      var text := Trim(f.lines[i].raw);
      && (forall g :: g in f.lines[i].inc ==> Fits(g))
      && LinesFit(f, i + 1, if Skipped(text) then st else Levels(st, Indent(text))))
  }

  // ----- What a consumer sees -----

  function Change(e: Event): int {
    match e
    case Start => 1
    case End => -1
    case Item(_, opens) => if opens then 1 else 0
  }

  /** Blocks open after some events: those started or expected, less those ended. */
  function Depth(h: seq<Event>): int {
    if h == [] then 0 else Depth(h[..|h| - 1]) + Change(h[|h| - 1])
  }

  /** The lines seen, each with how many blocks were open before it. */
  function Shape(h: seq<Event>): seq<(Words, int)> {
    if h == [] then [] else
      var before, e := h[..|h| - 1], h[|h| - 1];
      Shape(before) + if e.Item? then [(e.w, Depth(before))] else []
  }

  /** No event ends a block that is not open. */
  predicate Proper(h: seq<Event>) {
    h == [] || (Depth(h) >= 0 && Proper(h[..|h| - 1]))
  }

  lemma Snoc(h: seq<Event>, e: Event)
    ensures Depth(h + [e]) == Depth(h) + Change(e)
    ensures Shape(h + [e]) == Shape(h) + if e.Item? then [(e.w, Depth(h))] else []
    ensures Proper(h + [e]) <==> Proper(h) && Depth(h) + Change(e) >= 0
  {
    assert (h + [e])[..|h|] == h;
  }

  /** Events between lines change the depth to that of the new column. */
  lemma {:induction false} DownDepth(h: seq<Event>, st: seq<nat>, ind: nat)
    requires Stack(st) && Depth(h) == |st| - 1 && Proper(h)
    ensures var g := h + Down(st, ind);
      Depth(g) == |Levels(st, ind)| - 1 && Shape(g) == Shape(h) && Proper(g)
    decreases |st|
  {
    Unit(h);
    Unit(Shape(h));
    if ind > Top(st) {
      Snoc(h, Start);
    } else if ind < Top(st) {
      Snoc(h, End);
      DownDepth(h + [End], st[..|st| - 1], ind);
      Assoc(h, [End], Down(st[..|st| - 1], ind));
    }
  }

  lemma GapDepth(h: seq<Event>, st: seq<nat>, expected: bool, ind: nat)
    requires Stack(st) && Depth(h) == |st| - 1 + (if expected then 1 else 0) && Proper(h)
    ensures var g := h + Gap(st, expected, ind);
      Depth(g) == |Levels(st, ind)| - 1 && Shape(g) == Shape(h) && Proper(g)
  {
    Unit(h);
    Unit(Shape(h));
    if !expected {
      DownDepth(h, st, ind);
    } else if ind <= Top(st) {
      Snoc(h, End);
      DownDepth(h + [End], st, ind);
      Assoc(h, [End], Down(st, ind));
    }
  }

  lemma {:induction false} LevelsZero(st: seq<nat>)
    requires Stack(st)
    ensures Levels(st, 0) == [0]
    decreases |st|
  {
    if |st| > 1 {
      LevelsZero(st[..|st| - 1]);
    }
  }

  /** For every text and every consumer: each line is handed over in as many
      open blocks as its indentation shows, every "end" closes an open block,
      and at the end of the file every block is closed. */
  lemma {:induction false} FileBalanced(env: Env, f: File, h: seq<Event>)
    requires Depth(h) == 0 && Proper(h)
    ensures var g := FileOut(env, f, h);
      Depth(g) == 0 && Shape(g) == Shape(h) + FileShape(env.tok, f) && Proper(g)
    decreases f, |f.lines| + 1
  {
    LinesBalanced(env, f, 0, h, [0], false);
  }

  lemma {:induction false} LinesBalanced(env: Env, f: File, i: nat, h: seq<Event>, st: seq<nat>, expected: bool)
    requires i <= |f.lines| && Stack(st)
    requires Depth(h) == |st| - 1 + (if expected then 1 else 0) && Proper(h)
    ensures var g := LinesOut(env, f, i, h, st, expected);
      Depth(g) == 0 && Shape(g) == Shape(h) + LinesShape(env.tok, f, i, st) && Proper(g)
    decreases f, |f.lines| - i, 1, 0
  {
    hide Depth, Shape, Proper, Gap, Levels, Column, Trim, Classify;
    if i == |f.lines| {
      GapDepth(h, st, expected, 0);
      LevelsZero(st);
      Unit(Shape(h));
    } else {
      var text := Trim(f.lines[i].raw);
      if Skipped(text) {
        LinesBalanced(env, f, i + 1, h, st, expected);
      } else {
        GapDepth(h, st, expected, Indent(text));
        var h1, st1 := h + Gap(st, expected, Indent(text)), Levels(st, Indent(text));
        var rest := LinesShape(env.tok, f, i + 1, st1);
        match Classify(env.tok(text), |st1| - 1)
        case Nothing =>
          LinesBalanced(env, f, i + 1, h1, st1, false);
          Unit(rest);
        case Include =>
          TopOnly(env.tok(text), |st1| - 1);
          IncludeBalanced(env, f, i, 0, h1);
          LinesBalanced(env, f, i + 1, IncludeOut(env, f, i, 0, h1), st1, false);
          Assoc(Shape(h), IncludeShape(env.tok, f, i, 0), rest);
        case Plain(w) =>
          var b := env.wants(h1, w);
          Snoc(h1, Item(w, b));
          LinesBalanced(env, f, i + 1, h1 + [Item(w, b)], st1, b);
          Assoc(Shape(h), [(w, |st1| - 1)], rest);
      }
    }
  }

  lemma TopOnly(w: Words, depth: nat)
    ensures Classify(w, depth) == Include ==> depth == 0
  {
  }

  lemma {:induction false} IncludeBalanced(env: Env, f: File, i: nat, j: nat, h: seq<Event>)
    requires i < |f.lines| && j <= |f.lines[i].inc|
    requires Depth(h) == 0 && Proper(h)
    ensures var g := IncludeOut(env, f, i, j, h);
      Depth(g) == 0 && Shape(g) == Shape(h) + IncludeShape(env.tok, f, i, j) && Proper(g)
    decreases f, |f.lines| - i, 0, |f.lines[i].inc| - j
  {
    hide Depth, Shape, Proper;
    if j == |f.lines[i].inc| {
      Unit(Shape(h));
    } else {
      var g := f.lines[i].inc[j];
      FileBalanced(env, g, h);
      IncludeBalanced(env, f, i, j + 1, FileOut(env, g, h));
      Assoc(Shape(h), FileShape(env.tok, g), IncludeShape(env.tok, f, i, j + 1));
    }
  }

  lemma {:induction false} ProperPrefix(h: seq<Event>, k: nat)
    requires Proper(h) && k <= |h|
    ensures Proper(h[..k]) && Depth(h[..k]) >= 0
    decreases |h|
  {
    if k < |h| {
      ProperPrefix(h[..|h| - 1], k);
      assert h[..|h| - 1][..k] == h[..k];
    } else {
      assert h[..k] == h;
    }
  }

  /** A whole configuration, for any two consumers of the same text: they see
      the same lines at the same depths, and never more ends than openings,
      even one that leaves half-way. */
  lemma ConsumersAgree(env1: Env, env2: Env, f: File, k: nat)
    requires env1.tok == env2.tok && k <= |FileOut(env1, f, [])|
    ensures Shape(FileOut(env1, f, [])) == Shape(FileOut(env2, f, [])) == FileShape(env1.tok, f)
    ensures Proper(FileOut(env1, f, [])[..k]) && Depth(FileOut(env1, f, [])) == 0
  {
    hide FileOut, FileShape;
    FileBalanced(env1, f, []);
    FileBalanced(env2, f, []);
    ProperPrefix(FileOut(env1, f, []), k);
    Unit(FileShape(env1.tok, f));
  }

  // ----- The output only grows -----

  lemma {:induction false} Grows(env: Env, f: File, i: nat, h: seq<Event>, st: seq<nat>, expected: bool)
    requires i <= |f.lines| && Stack(st)
    ensures h <= LinesOut(env, f, i, h, st, expected)
    decreases f, |f.lines| - i, 1, 0
  {
    if i < |f.lines| {
      var text := Trim(f.lines[i].raw);
      if Skipped(text) {
        Grows(env, f, i + 1, h, st, expected);
      } else {
        TailGrows(env, f, i, h + Gap(st, expected, Indent(text)), Levels(st, Indent(text)));
      }
    }
  }

  lemma {:induction false} TailGrows(env: Env, f: File, i: nat, h1: seq<Event>, st1: seq<nat>)
    requires i < |f.lines| && Stack(st1)
    ensures h1 <= Tail(env, f, i, h1, st1)
    decreases f, |f.lines| - i, 0, |f.lines[i].inc| + 1
  {
    match Classify(env.tok(Trim(f.lines[i].raw)), |st1| - 1)
    case Nothing => Grows(env, f, i + 1, h1, st1, false);
    case Include =>
      IncludeGrows(env, f, i, 0, h1);
      Grows(env, f, i + 1, IncludeOut(env, f, i, 0, h1), st1, false);
    case Plain(w) =>
      Grows(env, f, i + 1, h1 + [Item(w, env.wants(h1, w))], st1, env.wants(h1, w));
  }

  lemma {:induction false} IncludeGrows(env: Env, f: File, i: nat, j: nat, h: seq<Event>)
    requires i < |f.lines| && j <= |f.lines[i].inc|
    ensures h <= IncludeOut(env, f, i, j, h)
    decreases f, |f.lines| - i, 0, |f.lines[i].inc| - j
  {
    if j < |f.lines[i].inc| {
      var g := f.lines[i].inc[j];
      Grows(env, g, 0, h, [0], false);
      IncludeGrows(env, f, i, j + 1, FileOut(env, g, h));
    }
  }

  lemma Unfold(env: Env, f: File, i: nat, h: seq<Event>, st: seq<nat>, expected: bool)
    requires i < |f.lines| && Stack(st)
    ensures var text := Trim(f.lines[i].raw);
      LinesOut(env, f, i, h, st, expected) ==
        if Skipped(text) then LinesOut(env, f, i + 1, h, st, expected)
        else Tail(env, f, i, h + Gap(st, expected, Indent(text)), Levels(st, Indent(text)))
  {
  }

  lemma NextFits(f: File, i: nat, st: seq<nat>)
    requires i < |f.lines| && Stack(st) && LinesFit(f, i, st)
    ensures forall g :: g in f.lines[i].inc ==> Fits(g)
    ensures var text := Trim(f.lines[i].raw);
      if Skipped(text) then LinesFit(f, i + 1, st)
      else |Levels(st, Indent(text))| <= 80 && LinesFit(f, i + 1, Levels(st, Indent(text)))
  {
  }
}
