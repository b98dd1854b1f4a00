// The parser loop of lib/cf.c: an indentation stack in a fixed array, and
// tokens handed to a consumer one at a time.
module IndentParser {
  import opened Seqs
  import opened IndentRules

  /** `struct cfstate`, with everything handed over so far. */
  class CfState {
    const env: Env
    var expstart: bool
    var sent: seq<Event>

    constructor (env: Env)
      ensures this.env == env && !expstart && sent == []
    {
      this.env, expstart, sent := env, false, [];
    }

    /** Hand over an event; whether the consumer is gone. Only after a line
        does it set `expstart`. */
    method Send(e: Event) returns (stop: bool)
      modifies this`sent
      ensures sent == old(sent) + [e] && stop == env.quit(sent)
    {
      sent := sent + [e];
      stop := env.quit(sent);
    }

    /** Stopped on the way to `all`. */
    ghost predicate Cut(all: seq<Event>)
      reads this`sent
    {
      sent <= all && env.quit(sent)
    }

    /** From the label `reindent` on, when no block is expected. */
    method Adjust(indst: array<nat>, indl0: nat, ind: nat, ghost st: seq<nat>) returns (stop: bool, indl: nat)
      requires !expstart && indst.Length == 80 && indl0 < 80 && indst[..indl0 + 1] == st && Stack(st)
        && |Levels(st, ind)| <= 80
      modifies this`sent, indst
      ensures stop ==> Cut(old(sent) + Down(st, ind))
      ensures !stop ==> indl < 80 && indst[..indl + 1] == Levels(st, ind) && sent == old(sent) + Down(st, ind)
    {
      indl := indl0;
      ghost var cur := st;
      Unit(sent);
      while ind < indst[indl]
        invariant indl < 80 && Stack(cur) && indst[..indl + 1] == cur
        invariant sent + Down(cur, ind) == old(sent) + Down(st, ind)
        invariant Levels(cur, ind) == Levels(st, ind)
      {
        ghost var rest := cur[..|cur| - 1];
        Assoc(sent, [End], Down(rest, ind));
        cur := rest;
        indl := indl - 1;
        stop := Send(End);
        if stop {
          Lead(sent, Down(rest, ind));
          return;
        }
      }
      stop := false;
      if ind > indst[indl] {
        indl := indl + 1;
        indst[indl] := ind;
        assert indst[..indl + 1] == cur + [ind];
        stop := Send(Start);
        return;
      }
      Unit(sent);
    }

    lemma Lead(a: seq<Event>, b: seq<Event>)
      ensures a <= a + b
    {
    }

    /** Everything between two lines. */
    method Reindent(indst: array<nat>, indl0: nat, ind: nat, ghost st: seq<nat>) returns (stop: bool, indl: nat)
      requires indst.Length == 80 && indl0 < 80 && indst[..indl0 + 1] == st && Stack(st) && |Levels(st, ind)| <= 80
      modifies this, indst
      ensures stop ==> Cut(old(sent) + Gap(st, old(expstart), ind))
      ensures !stop ==> !expstart && indl < 80 && indst[..indl + 1] == Levels(st, ind)
      ensures !stop ==> sent == old(sent) + Gap(st, old(expstart), ind)
    {
      stop, indl := false, indl0;
      if expstart {
        expstart := false;
        if ind > indst[indl] {
          indl := indl + 1;
          indst[indl] := ind;
          assert indst[..indl + 1] == st + [ind];
          Unit(sent);
          return;
        }
        Assoc(sent, [End], Down(st, ind));
        stop := Send(End);
        if stop {
          Lead(sent, Down(st, ind));
          return;
        }
      }
      stop, indl := Adjust(indst, indl, ind, st);
    }

    /** Drop white space from the end of a line. */
    method TrimLine(raw: string) returns (text: string)
      ensures text == Trim(raw)
    {
      text := raw;
      while text != [] && IsSpace(text[|text| - 1])
        invariant Trim(text) == Trim(raw)
        decreases |text|
      {
        text := text[..|text| - 1];
      }
    }

    method Measure(text: string) returns (ind: nat, p: nat)
      ensures (ind, p) == Column(text, 0, 0)
    {
      ind, p := 0, 0;
      while p < |text|
        invariant p <= |text| && Column(text, p, ind) == Column(text, 0, 0)
      {
        if text[p] == ' ' {
          ind := ind + 1;
        } else if text[p] == '\t' {
          ind := ind - ind % 8 + 8;
        } else {
          return;
        }
        p := p + 1;
      }
    }

    /** `parsefile`: 0 when the file has been handed over, 1 when the consumer
        left before that. */
    method ParseFile(f: File) returns (rv: int)
      requires !expstart && Fits(f)
      modifies this
      ensures rv == 0 ==> !expstart && sent == FileOut(env, f, old(sent))
      ensures rv != 0 ==> Cut(FileOut(env, f, old(sent)))
      decreases f, |f.lines| + 1
    {
      var indst := new nat[80];
      var indl: nat := 0;
      indst[0] := 0;
      assert indst[..1] == [0];
      var i := 0;
      while i < |f.lines|
        invariant i <= |f.lines| && indl < 80 && Stack(indst[..indl + 1])
        invariant LinesFit(f, i, indst[..indl + 1])
        invariant LinesOut(env, f, i, sent, indst[..indl + 1], expstart) == FileOut(env, f, old(sent))
      {
        var stop;
        stop, indl := ParseLine(f, i, indst, indl, indst[..indl + 1]);
        if stop {
          return 1;
        }
        i := i + 1;
      }
      ghost var st := indst[..indl + 1];
      LevelsZero(st);
      var stop;
      stop, indl := Reindent(indst, indl, 0, st);
      rv := if stop then 1 else 0;
    }

    /** One turn of the loop of `parsefile`. */
    method ParseLine(f: File, i: nat, indst: array<nat>, indl0: nat, ghost st: seq<nat>) returns (stop: bool, indl: nat)
      requires i < |f.lines| && indst.Length == 80 && indl0 < 80 && st == indst[..indl0 + 1] && Stack(st)
        && LinesFit(f, i, st)
      modifies this, indst
      ensures stop ==> Cut(LinesOut(env, f, i, old(sent), st, old(expstart)))
      ensures !stop ==> indl < 80 && Stack(indst[..indl + 1]) && LinesFit(f, i + 1, indst[..indl + 1])
      ensures !stop ==>
        LinesOut(env, f, i + 1, sent, indst[..indl + 1], expstart) == LinesOut(env, f, i, old(sent), st, old(expstart))
      decreases f, |f.lines| - i, 1, 0
    {
      hide Column, Trim, Gap, Levels, Down, Classify, LinesOut, LinesFit, Cut;
      stop, indl := false, indl0;
      ghost var h, expected := sent, expstart;
      var text := TrimLine(f.lines[i].raw);
      var ind, p := Measure(text);
      NextFits(f, i, st);
      Unfold(env, f, i, h, st, expected);
      if p == |text| || text[p] == '#' {
        return;
      }
      stop, indl := Reindent(indst, indl, ind, st);
      ghost var h1, st1 := h + Gap(st, expected, ind), Levels(st, ind);
      if stop {
        TailGrows(env, f, i, h1, st1);
        CutMore(h1, Tail(env, f, i, h1, st1));
        return;
      }
      stop := TakeLine(f, i, text, indl, st1);
    }

    /** The words of a line, once its indentation has been dealt with. */
    method TakeLine(f: File, i: nat, text: string, indl: nat, ghost st1: seq<nat>) returns (stop: bool)
      requires i < |f.lines| && text == Trim(f.lines[i].raw) && !expstart && Stack(st1) && indl == |st1| - 1
      requires forall g :: g in f.lines[i].inc ==> Fits(g)
      modifies this
      ensures stop ==> Cut(Tail(env, f, i, old(sent), st1))
      ensures !stop ==> LinesOut(env, f, i + 1, sent, st1, expstart) == Tail(env, f, i, old(sent), st1)
      decreases f, |f.lines| - i, 0, |f.lines[i].inc| + 1
    {
      hide Trim, LinesOut, IncludeOut, FileOut, Fits, Cut;
      stop := false;
      var w := env.tok(text);
      if |w| < 1 {
        return;
      }
      if indl == 0 {
        if w[0] == "include" {
          stop := DoInclude(f, i);
          if stop {
            Grows(env, f, i + 1, IncludeOut(env, f, i, 0, old(sent)), st1, false);
            CutMore(IncludeOut(env, f, i, 0, old(sent)), Tail(env, f, i, old(sent), st1));
          }
          return;
        }
      }
      if w[0] == "start" || w[0] == "end" || w[0] == "eof" {
        return;
      }
      var opens := env.wants(sent, w);
      stop := Send(Item(w, opens));
      if stop {
        Grows(env, f, i + 1, sent, st1, opens);
        CutHere(Tail(env, f, i, old(sent), st1));
        return;
      }
      expstart := opens;
    }

    /** `doinclude`, for every file the words of line i name. */
    method DoInclude(f: File, i: nat) returns (stop: bool)
      requires i < |f.lines| && !expstart
      requires forall g :: g in f.lines[i].inc ==> Fits(g)
      modifies this
      ensures stop ==> Cut(IncludeOut(env, f, i, 0, old(sent)))
      ensures !stop ==> !expstart && sent == IncludeOut(env, f, i, 0, old(sent))
      decreases f, |f.lines| - i, 0, |f.lines[i].inc|
    {
      hide FileOut, Fits, Cut;
      var j := 0;
      while j < |f.lines[i].inc|
        invariant j <= |f.lines[i].inc| && !expstart
        invariant IncludeOut(env, f, i, j, sent) == IncludeOut(env, f, i, 0, old(sent))
      {
        ghost var out := FileOut(env, f.lines[i].inc[j], sent);
        var rv := ParseFile(f.lines[i].inc[j]);
        if rv != 0 {
          IncludeGrows(env, f, i, j + 1, out);
          CutMore(out, IncludeOut(env, f, i, 0, old(sent)));
          return true;
        }
        j := j + 1;
      }
      stop := false;
    }

    lemma CutMore(all: seq<Event>, more: seq<Event>)
      requires Cut(all) && all <= more
      ensures Cut(more)
    {
    }

    lemma CutHere(more: seq<Event>)
      requires env.quit(sent) && sent <= more
      ensures Cut(more)
    {
    }
  }
}
