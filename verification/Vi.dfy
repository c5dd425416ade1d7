// lsh/vi.c, lsh/vi.h: the text buffer of the vi library. Every line is a heap block that
// ends with a newline; pointers, sizes and lengths lie in three parallel arrays.
module Vi {
  import opened ArrayShift
  import opened FlatText
  import opened Lists
  import opened Wrappers

  const LMAX: nat := 1024 * 8

  datatype Pos = Pos(l: nat, off: nat)

  datatype Clip = Clip(lined: bool, text: string)

  // What the user sees: the lines, the cursor, the clipboard.
  datatype Edit = Edit(text: seq<string>, at: Pos, clip: Option<Clip>)

  function Line(e: Edit): string
    requires OnText(e.text, e.at.l, e.at.off)
  {
    e.text[e.at.l]
  }

  // The cursor's line without what lies between the cursor and offset from, both included.
  function Deleted(e: Edit, from: nat): Edit
    requires OnText(e.text, e.at.l, e.at.off) && from < |Line(e)| && e.at.off < |Line(e)|
  {
    var head, tail := if from < e.at.off then from else e.at.off, if from < e.at.off then e.at.off else from;
    var rest := Cut(Line(e), head, tail - head + 1);
    Edit(e.text[e.at.l := rest],
         Pos(e.at.l, if 0 < |rest| == head then head - 1 else head),
         Some(Clip(false, Line(e)[head..tail + 1])))
  }

  // The line cut off at the cursor, what came after in the clipboard.
  function TailDeleted(e: Edit): Edit
    requires OnText(e.text, e.at.l, e.at.off) && e.at.off < |Line(e)|
  {
    Edit(e.text[e.at.l := Line(e)[..e.at.off]],
         Pos(e.at.l, if e.at.off > 0 then e.at.off - 1 else 0),
         Some(Clip(false, Line(e)[e.at.off..])))
  }

  // The whole line in the clipboard.
  function Yanked(e: Edit): Edit
    requires OnText(e.text, e.at.l, e.at.off)
  {
    e.(clip := Some(Clip(true, Line(e))))
  }

  // A yanked line goes below the cursor's, other text behind the cursor.
  function Pasted(e: Edit): Edit
    requires OnText(e.text, e.at.l, e.at.off) && e.clip.Some?
    requires !e.clip.value.lined && Line(e) != "" ==> e.at.off < |Line(e)|
  {
    var l, off, x := e.at.l, e.at.off, e.clip.value.text;
    if e.clip.value.lined then Edit(Spliced(e.text, l + 1, [x]), Pos(l + 1, 0), e.clip)
    else if Line(e) == "" then Edit(e.text[l := x], Pos(l, if x == "" then 0 else |x| - 1), e.clip)
    else Edit(e.text[l := Spliced(Line(e), off + 1, x)], Pos(l, off + if x == "" then 1 else |x|), e.clip)
  }

  // The cursor's line gone to the clipboard, the cursor at the start of the next, or of the last.
  function LineDeleted(e: Edit): Edit
    requires OnText(e.text, e.at.l, e.at.off) && |e.text| > 1
  {
    Edit(Cut(e.text, e.at.l, 1), Pos(if e.at.l == |e.text| - 1 then e.at.l - 1 else e.at.l, 0),
         Some(Clip(true, Line(e))))
  }

  // d$ and then p: the text is back.
  lemma TailComesBack(e: Edit)
    requires OnText(e.text, e.at.l, e.at.off) && e.at.off < |Line(e)|
    ensures Pasted(TailDeleted(e)).text == e.text
  {
    var line, off := Line(e), e.at.off;
    assert line[..off] + line[off..] == line;
    if off > 0 {
      assert Spliced(line[..off], off, line[off..]) == line;
    }
    assert e.text[e.at.l := line] == e.text;
  }

  // A selection deleted and pasted again from the place left of it: the text is back.
  lemma SelectionComesBack(e: Edit, from: nat)
    requires OnText(e.text, e.at.l, e.at.off) && 0 < e.at.off < |Line(e)| && 0 < from < |Line(e)|
    ensures
      var head := if from < e.at.off then from else e.at.off;
      Pasted(Deleted(e, from).(at := Pos(e.at.l, head - 1))).text == e.text
  {
    var line := Line(e);
    var head, tail := if from < e.at.off then from else e.at.off, if from < e.at.off then e.at.off else from;
    SpliceUndoesCut(line, head, tail - head + 1);
    assert e.text[e.at.l := line] == e.text;
  }

  // yy, p, dd: the text is back, and the cursor on the line below or on the last.
  lemma CopyComesAndGoes(e: Edit)
    requires OnText(e.text, e.at.l, e.at.off)
    ensures LineDeleted(Pasted(Yanked(e))).text == e.text
    ensures LineDeleted(Pasted(Yanked(e))).at ==
      Pos(if e.at.l + 1 < |e.text| then e.at.l + 1 else e.at.l, 0)
    ensures LineDeleted(Pasted(Yanked(e))).clip == Some(Clip(true, Line(e)))
  {
    CutUndoesSplice(e.text, e.at.l + 1, [Line(e)]);
  }

  // dd and then p below the line above: the text is back.
  lemma LineComesBack(e: Edit)
    requires OnText(e.text, e.at.l, e.at.off) && e.at.l > 0
    ensures Pasted(LineDeleted(e).(at := Pos(e.at.l - 1, 0))).text == e.text
  {
    SpliceUndoesCut(e.text, e.at.l, 1);
    assert e.text[e.at.l..e.at.l + 1] == [Line(e)];
  }

  lemma TailIsDeleted(e: Edit)
    requires OnText(e.text, e.at.l, e.at.off) && e.at.off < |Line(e)|
    ensures Deleted(e.(at := Pos(e.at.l, |Line(e)| - 1)), e.at.off) == TailDeleted(e)
  {
    var line := Line(e);
    assert Cut(line, e.at.off, |line| - e.at.off) == line[..e.at.off];
    assert line[e.at.off..|line| - 1 + 1] == line[e.at.off..];
    assert Line(e.(at := Pos(e.at.l, |line| - 1))) == line;
  }

  lemma SliceOfPrefix(s: string, prefix: string, from: nat, len: nat)
    requires |prefix| <= |s| && s[..|prefix|] == prefix && from + len <= |prefix|
    ensures s[from..from + len] == prefix[from..from + len]
  {
    assert forall i :: from <= i < from + len ==> s[i] == s[..|prefix|][i];
  }

  lemma CutDistinct<T>(s: seq<T>, at: nat, len: nat)
    requires at + len <= |s| && Distinct(s)
    ensures Distinct(Cut(s, at, len))
  {}

  ghost function Members<T>(s: seq<T>): set<T> {
    set b | b in s
  }

  // What is left is not what was cut out; the first place behind it held one or the other.
  lemma CutUnfreed<T>(s: seq<T>, at: nat, len: nat, gone: set<T>, gone': set<T>)
    requires at + len <= |s| && 0 < len && Distinct(s) && forall b :: b in s ==> b !in gone
    requires gone' == gone + Members(s[at..at + len])
    ensures forall b :: b in Cut(s, at, len) ==> b in s && b !in gone'
    ensures s[|s| - len] in gone' || s[|s| - len] in Cut(s, at, len)
  {
    var k := |s| - len;
    if k < at + len {
      assert s[at..at + len][k - at] == s[k];
    } else {
      assert Cut(s, at, len)[k - len] == s[k];
    }
  }

  lemma CutLength<S, T>(s: seq<S>, t: seq<T>, at: nat, len: nat)
    requires at + len <= |s| == |t|
    ensures |Cut(s, at, len)| == |Cut(t, at, len)| == |s| - len
  {}

  // One of the shifts of VI_DEL_LINES, cell by cell
  method DropCells<T>(arr: array<T>, n: nat, at: nat, len: nat)
    requires at + len <= n <= arr.Length
    modifies arr
    ensures forall j :: 0 <= j < at ==> arr[j] == old(arr[j])
    ensures forall j :: at <= j < n - len ==> arr[j] == old(arr[j + len])
    ensures forall j :: n - len <= j < arr.Length ==> arr[j] == old(arr[j])
  {
    ghost var was := arr[..n];
    var newlen := ArrDel(arr, n, at, len);
    forall j | 0 <= j < n - len
      ensures arr[j] == was[if j < at then j else j + len]
    {
      assert arr[..newlen][j] == Cut(was, at, len)[j];
    }
    forall j | n - len <= j < arr.Length
      ensures arr[j] == old(arr[j])
    {
      assert arr[newlen..][j - newlen] == old(arr[newlen..])[j - newlen];
    }
  }

  lemma SplicedDistinct<T>(s: seq<T>, at: nat, x: seq<T>)
    requires at <= |s| && Distinct(s) && Distinct(x) && forall y :: y in x ==> y !in s
    ensures Distinct(Spliced(s, at, x))
  {
    assert forall j :: 0 <= j < |x| ==> x[j] in x;
  }

  // The block shows the text: its characters, then the newline, none before.
  ghost predicate Shows(block: array<char>, t: string)
    reads block
  {
    |t| < block.Length && block[..|t|] == t && block[|t|] == EOL && EOL !in t
  }

  lemma NotBoth(block: array<char>)
    ensures !(Shows(block, "") && Shows(block, "x"))
  {
    if Shows(block, "x") { assert block[0] == block[..1][0]; }
  }

  // k lines, all empty but line j
  function OddLine(k: nat, j: nat): (made: seq<string>)
    requires j < k
    ensures |made| == k && forall l :: 0 <= l < k ==> made[l] == if l == j then "x" else ""
    ensures forall l :: 0 <= l < k ==> EOL !in made[l]
  {
    seq(k, l => if l == j then "x" else "")
  }

  // The slots, their sizes and the freed blocks at some time
  datatype Slotted = Slotted(blocks: seq<array?<char>>, sizes: seq<nat>, freed: set<array<char>>)

  ghost predicate NotAmong(b: array?<char>, bs: seq<array<char>>) {
    forall i :: 0 <= i < |bs| ==> bs[i] != b
  }

  class TextBuffer {
    const lines: array<array?<char>>
    const sizes: array<nat>
    const lens: array<nat>
    var lmax: nat
    var currl: nat
    var off: nat                    // vi->curr as an offset into line currl
    var begin: Option<Pos>          // v_begin and v_beginl
    var yline: array?<char>         // line 0 of the clipboard
    var ysize: nat
    var ylen: nat
    var ylmax: int
    var yy: bool
    ghost var blocks: seq<array<char>>
    ghost var text: seq<string>
    ghost var freed: set<array<char>>   // blocks given back to the allocator
    ghost var fault: bool               // one of them has been written to or given back again

    ghost predicate Arrays() {
      lines.Length == sizes.Length == lens.Length == LMAX && sizes != lens
    }

    // The lines in memory are the text.
    ghost predicate Live()
      reads this`lmax, this`blocks, this`text, lines, sizes, lens, blocks
    {
      && Arrays() && |blocks| == |text| == lmax + 1 <= LMAX
      && (forall l {:trigger blocks[l]} :: 0 <= l < |blocks| ==>
            lines[l] == blocks[l] && sizes[l] == blocks[l].Length && lens[l] == |text[l]|)
      && (forall l {:trigger text[l]} :: 0 <= l < |blocks| ==> Shows(blocks[l], text[l]))
      && Distinct(blocks)
    }

    ghost predicate Valid()
      reads this`lmax, this`blocks, this`text, this`currl, this`off, lines, sizes, lens, blocks
    {
      Live() && OnText(text, currl, off)
    }

    // The clipboard holds at most one line, in a block that is none of the lines'.
    ghost predicate YLive()
      reads this`yline, this`ysize, this`ylen, this`ylmax, this`blocks, yline
    {
      && (if yline == null then ysize == 0 else ysize == yline.Length && yline !in blocks)
      && -1 <= ylmax <= 0
      && (ylmax == 0 ==> yline != null && ylen < ysize && EOL !in yline[..ylen])
    }

    ghost function Clipboard(): Option<Clip>
      requires YLive()
      reads this`yline, this`ysize, this`ylen, this`ylmax, this`yy, this`blocks, yline
    {
      if ylmax < 0 then None else Some(Clip(yy, yline[..ylen]))
    }

    ghost predicate SlotOk(l: nat)
      requires Arrays() && l < LMAX
      reads lines, sizes
    {
      if lines[l] == null then sizes[l] == 0 else sizes[l] == lines[l].Length > 0
    }

    // What holds of all slots, those behind the last line included: sizes are right, and the
    // clipboard has a block of its own.
    ghost predicate Sane()
      reads this`yline, this`ysize, this`freed, lines, sizes
    {
      && Arrays() && ysize == (if yline == null then 0 else yline.Length)
      && (yline != null ==> yline !in freed)
      && (forall l :: 0 <= l < LMAX ==> SlotOk(l))
      && (forall l :: 0 <= l < LMAX && lines[l] != null ==> lines[l] != yline)
    }

    // No block of the text has been freed.
    ghost predicate Unfreed()
      reads this`blocks, this`freed
    {
      forall b :: b in blocks ==> b !in freed
    }

    // None of the first n slots names a freed block or shares its block with another of them.
    ghost predicate Clean(n: nat)
      reads this`freed, lines
    {
      && n <= LMAX == lines.Length
      && (forall l :: 0 <= l < n && lines[l] != null ==> lines[l] !in freed)
      && (forall i, j :: 0 <= i < j < n && lines[i] != null ==> lines[i] != lines[j])
    }

    // The blocks all slots name, and the first n of them
    ghost function AllSlots(): set<array<char>>
      reads lines
    {
      set l | 0 <= l < lines.Length && lines[l] != null :: lines[l]
    }

    ghost function Slots(n: nat): (r: set<array<char>>)
      reads lines
      ensures r <= AllSlots()
    {
      set l | 0 <= l < n && l < lines.Length && lines[l] != null :: lines[l]
    }

    // Every block named now was named before, or is new.
    twostate predicate Own()
      reads this`blocks, this`yline, lines
    {
      && (yline == old(yline) || fresh(yline))
      && (forall b :: b in blocks ==> b in old(blocks) || fresh(b))
      && (forall b :: b in AllSlots() ==> b in old(AllSlots()) || fresh(b))
    }

    // What every edit leaves as it found it, but for deleting lines: slots that were clean.
    twostate predicate Kept()
      reads this`blocks, this`yline, this`ysize, this`freed, this`fault, lines, sizes
    {
      && Sane() && Unfreed() && Own() && fault == old(fault)
      && (forall n: nat :: old(Clean(n)) ==> Clean(n))
    }

    ghost predicate Ready()
      reads this, lines, sizes, lens, blocks, yline
    {
      Valid() && YLive() && Sane() && Unfreed()
    }

    ghost function View(): Edit
      requires Ready()
      reads this, lines, sizes, lens, blocks, yline
    {
      Edit(text, Pos(currl, off), Clipboard())
    }

    // *vi->curr
    function Here(): (c: char)
      requires Valid()
      reads this`lmax, this`blocks, this`text, this`currl, this`off, lines, sizes, lens, blocks
      ensures c == CharAt(text, currl, off)
      ensures lines[currl] != null && off < lines[currl].Length && c == lines[currl][off]
    {
      var block := blocks[currl];
      assert Shows(block, text[currl]) && lines[currl] == block;
      assert off < |text[currl]| ==> block[off] == block[..|text[currl]|][off];
      lines[currl][off]
    }

    // Where the cursor is in the flat text.
    ghost function At(): (p: nat)
      requires Valid()
      reads this`lmax, this`blocks, this`text, this`currl, this`off, lines, sizes, lens, blocks
      ensures p == Index(text, currl, off)
      ensures p < |Flat(text)| && Flat(text)[p] == Here()
    {
      IndexInFlat(text, currl, off);
      Index(text, currl, off)
    }

    lemma NewlineIsLast()
      requires Valid()
      ensures Here() == EOL <==> off == |text[currl]|
      ensures currl < lens.Length && lens[currl] == |text[currl]| && lmax + 1 == |text| == |blocks|
    {
      assert lens[currl] == |text[currl]| by { var b := blocks[currl]; }
      assert Shows(blocks[currl], text[currl]);
    }

    // vi_L_: one to the right in the flat text, if there is one.
    method StepRight() returns (ok: bool)
      requires Valid()
      modifies this`currl, this`off
      ensures Valid() && (ok <==> old(At()) + 1 < |Flat(text)|)
      ensures At() == if ok then old(At()) + 1 else old(At())
      ensures !ok ==> currl == old(currl) && off == old(off)
    {
      hide Live, Index, Flat;
      NewlineIsLast();
      NextIndex(text, currl, off);
      if Here() == EOL {
        if lmax == currl { return false; }
        currl, off := currl + 1, 0;
      } else {
        off := off + 1;
      }
      IndexInFlat(text, currl, off);
      return true;
    }

    lemma AtStart()
      requires Valid()
      ensures At() == 0 <==> currl == 0 && off == 0
    {}

    // vi_H_: one to the left, if there is one.
    method StepLeft() returns (ok: bool)
      requires Valid()
      modifies this`currl, this`off
      ensures Valid() && (ok <==> old(At()) > 0)
      ensures At() == if ok then old(At()) - 1 else old(At())
      ensures !ok ==> currl == old(currl) && off == old(off)
    {
      hide Index, Flat;
      AtStart();
      if off > 0 {
        off := off - 1;
        NextIndex(text, currl, off);
        return true;
      }
      if currl > 0 {
        currl := currl - 1;
        LengthAt(currl);
        off := lens[currl];
        NextIndex(text, currl, off);
        return true;
      }
      return false;
    }

    lemma LengthAt(l: nat)
      requires Arrays() && |blocks| == |text| <= LMAX && l < |blocks|
      requires forall i {:trigger blocks[i]} :: 0 <= i < |blocks| ==> lens[i] == |text[i]|
      ensures lens[l] == |text[l]|
    {
      var b := blocks[l];
    }

    // vi_smelll: what is left of the cursor, if anything.
    method SmellLeft() returns (c: Option<char>)
      requires Valid()
      ensures c == if At() == 0 then None else Some(Flat(text)[At() - 1])
    {
      hide Index, Flat;
      AtStart();
      if off == 0 {
        if currl == 0 { return None; }
        NextIndex(text, currl - 1, |text[currl - 1]|);
        IndexInFlat(text, currl - 1, |text[currl - 1]|);
        return Some(EOL);
      }
      NextIndex(text, currl, off - 1);
      IndexInFlat(text, currl, off - 1);
      var block := blocks[currl];
      assert Shows(block, text[currl]) && lines[currl] == block;
      assert block[off - 1] == block[..|text[currl]|][off - 1];
      return Some(lines[currl][off - 1]);
    }

    // vi_w: to the next word start or other non-blank; no move if there is none.
    method W() returns (ok: bool)
      requires Valid()
      modifies this`currl, this`off
      ensures Valid()
      ensures ok ==> IsNextStop(Flat(text), old(At()), At())
      ensures !ok ==> currl == old(currl) && off == old(off) && NoStopIn(Flat(text), At() + 1, |Flat(text)|)
    {
      hide Live, Index, Flat, IsCword, IsBlank;
      var oldl, oldoff := currl, off;
      while true
        invariant Valid() && old(At()) <= At() && NoStopIn(Flat(text), old(At()) + 1, At() + 1)
        decreases |Flat(text)| - At()
      {
        var prev := Here();
        var moved := StepRight();
        if !moved { break; }
        if !IsBlank(Here()) && !IsCword(Here()) { return true; }
        if IsCword(Here()) && !IsCword(prev) { return true; }
      }
      currl, off := oldl, oldoff;
      return false;
    }

    // vi_b: to the previous one.
    method B() returns (ok: bool)
      requires Valid()
      modifies this`currl, this`off
      ensures Valid()
      ensures ok ==> IsPrevStop(Flat(text), old(At()), At())
      ensures !ok ==> currl == old(currl) && off == old(off) && NoStopIn(Flat(text), 0, At())
    {
      hide Live, Index, Flat, IsCword, IsBlank;
      var oldl, oldoff := currl, off;
      while true
        invariant Valid() && At() <= old(At()) && NoStopIn(Flat(text), At(), old(At()))
        decreases At()
      {
        var moved := StepLeft();
        if !moved { break; }
        if !IsCword(Here()) && !IsBlank(Here()) { return true; }
        var left := SmellLeft();
        if IsCword(Here()) && (left.None? || !IsCword(left.value)) { return true; }
      }
      currl, off := oldl, oldoff;
      return false;
    }

    // From a stop, b undoes w: it succeeds whenever w did, and the cursor is where it was.
    method WThenB() returns (ok: bool)
      requires Valid() && Stop(Flat(text), At())
      modifies this`currl, this`off
      ensures Valid() && currl == old(currl) && off == old(off)
      ensures ok <==> !NoStopIn(Flat(text), At() + 1, |Flat(text)|)
    {
      hide Live, Index, Flat, Stop;
      ok := W();
      if ok {
        ghost var next := At();
        var back := B();
        assert back;
        BackFromNext(Flat(text), old(At()), next, At());
        OneCursor(text, currl, off, old(currl), old(off));
      }
    }

    // line[j] of line i, in the flat text
    method CharOf(i: nat, j: nat) returns (c: char)
      requires Live() && OnText(text, i, j) && j < |text[i]|
      ensures Index(text, i, j) < |Flat(text)| && c == Flat(text)[Index(text, i, j)]
    {
      IndexInFlat(text, i, j);
      assert Shows(blocks[i], text[i]) && lines[i] == blocks[i];
      assert blocks[i][j] == blocks[i][..|text[i]|][j];
      c := lines[i][j];
    }

    // One line of vi_percent, from offset start on; c is where the search stands.
    method PercentLine(i: nat, start: nat, it: char, buddy: char, nr: (nat, nat), ghost p: nat)
      returns (found: Option<nat>, nr': (nat, nat))
      requires Live() && OnText(text, i, start) && it != buddy && EOL != it && EOL != buddy
      requires p <= Index(text, i, start) < |Flat(text)|
      requires Counted(Flat(text), it, buddy, p, Index(text, i, start), nr)
      ensures found.Some? ==>
        && OnText(text, i, found.value) && Index(text, i, found.value) < |Flat(text)|
        && IsFirstSeeming(Flat(text), it, buddy, p, Index(text, i, found.value))
      ensures found.None? ==>
        && p <= Index(text, i, |text[i]|) < |Flat(text)|
        && Counted(Flat(text), it, buddy, p, Index(text, i, |text[i]|) + 1, nr')
    {
      hide Live, Flat, Index;
      var itNr, buddyNr := nr.0, nr.1;
      LengthOf(i);
      for j := start to lens[i]
        invariant OnText(text, i, j) && Index(text, i, j) < |Flat(text)| && p <= Index(text, i, j)
        invariant Counted(Flat(text), it, buddy, p, Index(text, i, j), (itNr, buddyNr))
      {
        var c := CharOf(i, j);
        NextIndex(text, i, j);
        IndexInFlat(text, i, j + 1);
        CountOne(Flat(text), it, buddy, p, Index(text, i, j), (itNr, buddyNr));
        if c == it {
          itNr := (itNr + 1) % 256;
        } else if c == buddy {
          buddyNr := (buddyNr + 1) % 256;
          if buddyNr == itNr { return Some(j), (itNr, buddyNr); }
        }
      }
      IndexInFlat(text, i, |text[i]|);
      CountOne(Flat(text), it, buddy, p, Index(text, i, |text[i]|), (itNr, buddyNr));
      return None, (itNr, buddyNr);
    }

    lemma LengthOf(l: nat)
      requires Live() && l < |text|
      ensures Arrays() && l < LMAX && lens[l] == |text[l]|
    {
      var b := blocks[l];
    }

    // vi_percent: on a bracket, ahead to where it seems matched; else no move.
    method Percent() returns (ok: bool)
      requires Valid()
      modifies this`currl, this`off
      ensures Valid() && (!ok ==> currl == old(currl) && off == old(off))
      ensures ok ==> exists k :: 0 <= k < 8 && old(Here()) == PAIRS[k]
                                 && IsFirstSeeming(Flat(text), PAIRS[k], BUDDIES[k], old(At()), At())
      ensures ok ==> Buddies(old(Here()), Here())
      ensures !ok ==> forall k :: 0 <= k < 8 && Here() == PAIRS[k] ==>
        forall r :: At() <= r < |Flat(text)| ==> !SeemsMatched(Flat(text), PAIRS[k], BUDDIES[k], At(), r)
    {
      hide Live, Flat, Index;
      NewlineIsLast();
      ghost var p := At();
      var k := 0;
      while k < 8 && PAIRS[k] != Here()
        invariant k <= 8 && forall i :: 0 <= i < k ==> PAIRS[i] != Here()
      {
        k := k + 1;
      }
      if k == 8 { return false; }
      PairsDiffer(k);
      var it, buddy := PAIRS[k], BUDDIES[k];
      var nr, start := (0, 0), off;
      ghost var flat := Flat(text);
      for i := currl to lmax + 1
        invariant Valid() && At() == p && currl == old(currl) && off == old(off)
        invariant i <= lmax ==> OnText(text, i, start) && p <= Index(text, i, start) < |flat|
        invariant Counted(flat, it, buddy, p, if i <= lmax then Index(text, i, start) else |flat|, nr)
      {
        var found;
        found, nr := PercentLine(i, start, it, buddy, nr, p);
        if found.Some? {
          IndexInFlat(text, i, found.value);
          currl, off := i, found.value;
          return true;
        }
        NextIndex(text, i, |text[i]|);
        if i < lmax { IndexInFlat(text, i + 1, 0); }
        start := 0;
      }
      PairOnce(k);
      return false;
    }

    // What VI_LINE_MK does to slot l: the old block serves if it is large enough; else it is
    // freed, and the slot gets a larger one. A freed block is touched if the slot names one.
    twostate predicate LineMade(l: nat, src: string)
      requires Arrays() && l < LMAX
      reads this`freed, this`fault, lines, sizes, lens
    {
      && lens[l] == |src| && lines[l] != null
      && (if |src| < old(sizes[l]) then lines[l] == old(lines[l]) && freed == old(freed)
          else fresh(lines[l]) && freed == old(freed) + (if old(lines[l]) == null then {} else {old(lines[l])}))
      && (fault <==> old(fault) || (old(lines[l]) != null && old(lines[l]) in old(freed)))
      && (forall i :: 0 <= i < LMAX && i != l ==> lines[i] == old(lines[i]))
      && (forall i :: 0 <= i < LMAX && i != l ==> sizes[i] == old(sizes[i]))
      && (forall i :: 0 <= i < LMAX && i != l ==> lens[i] == old(lens[i]))
    }

    // VI_LINE_MK: line l becomes src, in its old block if that is large enough.
    method LineMk(l: nat, src: string)
      requires Sane() && l < LMAX && EOL !in src
      modifies this`freed, this`fault, lines, sizes, lens, lines[l]
      ensures Sane() && LineMade(l, src) && Shows(lines[l], src)
    {
      var size := |src| + 1;
      assert SlotOk(l);
      fault := fault || (lines[l] != null && lines[l] in freed);
      if sizes[l] < size {
        freed := freed + if lines[l] == null then {} else {lines[l]};
        var block := new char[size];
        lines[l] := block;
        sizes[l] := size;
        SlotReplaced(l);
      }
      hide Sane;
      var block: array<char> := lines[l];
      WriteLine(block, src);
      lens[l] := |src|;
    }

    twostate lemma SlotReplaced(l: nat)
      requires old(Sane()) && l < LMAX && lines[l] != null && fresh(lines[l])
      requires sizes[l] == lines[l].Length > 0 && yline == old(yline) && ysize == old(ysize)
      requires freed == old(freed) + (if old(lines[l]) == null then {} else {old(lines[l])})
      requires forall i :: 0 <= i < LMAX && i != l ==> lines[i] == old(lines[i])
      requires forall i :: 0 <= i < LMAX && i != l ==> sizes[i] == old(sizes[i])
      ensures Sane()
    {
      assert old(SlotOk(l));
      forall i | 0 <= i < LMAX
        ensures SlotOk(i) && (lines[i] != null ==> lines[i] != yline)
      {
        if i != l { assert old(SlotOk(i)); }
      }
    }

    // Whatever has been done to a buffer, the slots of its lines are clean.
    lemma ReadyIsClean()
      requires Ready()
      ensures Clean(lmax + 1)
    {
      OnceEach();
      assert forall l :: 0 <= l <= lmax ==> lines[l] == blocks[l] && blocks[l] in blocks;
    }

    // vi_init
    constructor ()
      ensures Sane() && !fault && fresh(lines) && fresh(sizes) && fresh(lens)
      ensures yline == null && blocks == [] && AllSlots() == {} && forall n: nat :: n <= LMAX ==> Clean(n)
    {
      lines := new array?<char>[LMAX](_ => null);
      sizes := new nat[LMAX](_ => 0);
      lens := new nat[LMAX](_ => 0);
      begin, yline, ysize, ylen, ylmax, yy := None, null, 0, 0, -1, false;
      lmax, currl, off := 0, 0, 0;
      blocks, text, freed, fault := [], [], {}, false;
    }

    // The first slots hold these blocks, which show these lines.
    ghost predicate Made(bs: seq<array<char>>, made: seq<string>)
      requires Arrays()
      reads lines, lens, bs
    {
      && |made| == |bs| <= LMAX
      && (forall l {:trigger bs[l]} :: 0 <= l < |bs| ==> lines[l] == bs[l] && lens[l] == |made[l]|)
      && (forall l {:trigger made[l]} :: 0 <= l < |bs| ==> Shows(bs[l], made[l]))
    }

    // What vi_set does to the slots of the lines it has made, clean or not; it found these
    // blocks, sizes and freed blocks.
    ghost predicate SlotsSet(found: Slotted, made: seq<string>)
      requires |found.blocks| == |found.sizes| == LMAX
      reads this`freed, this`fault, lines, sizes, lens
    {
      && Arrays() && |made| <= LMAX && found.freed <= freed
      && (forall l {:trigger made[l]} :: 0 <= l < |made| ==> SlotSet(found, l, made[l]))
      && (forall l :: |made| <= l < LMAX ==> lines[l] == found.blocks[l])
      && (forall l :: |made| <= l < LMAX ==> sizes[l] == found.sizes[l])
    }

    ghost predicate SlotSet(found: Slotted, l: nat, src: string)
      requires Arrays() && |found.blocks| == |found.sizes| == LMAX && l < LMAX
      reads this`freed, this`fault, lines, lens
    {
      var block := found.blocks[l];
      && lens[l] == |src| && lines[l] != null
      && (if |src| < found.sizes[l] then lines[l] == block else block != null ==> block in freed)
      && (block != null && block in found.freed ==> fault)
    }

    lemma NoSlotsSet()
      requires Arrays()
      ensures SlotsSet(Slotted(lines[..], sizes[..], freed), [])
    {}

    lemma NotSetYet(found: Slotted, made: seq<string>)
      requires |found.blocks| == |found.sizes| == LMAX && |made| < LMAX && SlotsSet(found, made)
      ensures lines[|made|] == found.blocks[|made|]
    {}

    // One line more: slots that were clean stay so.
    method MakeNext(l: nat, src: string, ghost k: nat, ghost bs: seq<array<char>>, ghost made: seq<string>,
                    ghost found: Slotted)
      returns (ghost b: array<char>)
      requires Sane() && l == |made| == |bs| < k <= LMAX && EOL !in src
      requires |found.blocks| == |found.sizes| == LMAX && SlotsSet(found, made)
      modifies this`freed, this`fault, lines, sizes, lens, lines[l]
      ensures Sane() && SlotsSet(found, made + [src]) && yline == old(yline)
      ensures forall n: nat :: l < n && old(Clean(n)) ==> Clean(n)
      ensures forall b :: b in AllSlots() ==> b in old(AllSlots()) || fresh(b)
      ensures old(Clean(k)) && old(Made(bs, made)) ==> fault == old(fault) && Made(bs + [b], made + [src])
    {
      ghost var clean, was := Clean(k) && Made(bs, made), lines[l];
      assert clean ==> NotAmong(was, bs);
      assert clean && was != null ==> was !in freed;
      LineMk(l, src);
      b := lines[l];
      forall i | 0 <= i <= l
        ensures SlotSet(found, i, (made + [src])[i])
      {
        if i < l { assert old(SlotSet(found, i, made[i])); }
      }
      if clean {
        forall i | 0 <= i < l
          ensures Shows(bs[i], made[i])
        {
          assert old(Shows(bs[i], made[i])) && bs[i] != was;
        }
      }
    }

    // vi_set: it writes to the slots of the lines of str. If these were clean, the buffer holds
    // the lines.
    method Set(str: string)
      requires Sane() && |Split(str)| <= LMAX
      modifies this, lines, sizes, lens, Slots(|Split(str)|)
      ensures Sane() && SlotsSet(old(Slotted(lines[..], sizes[..], freed)), Split(str))
      ensures old(Clean(|Split(str)|)) ==>
        && Ready() && text == Split(str) && fault == old(fault)
        && (forall n: nat :: old(Clean(n)) ==> Clean(n))
        && (forall l {:trigger blocks[l]} :: 0 <= l < |blocks| ==>
              blocks[l] in old(AllSlots()) || fresh(blocks[l]))
      ensures forall b :: b in AllSlots() ==> b in old(AllSlots()) || fresh(b)
      ensures yline == old(yline) && lmax + 1 == |Split(str)|
      ensures currl == 0 && off == 0 && begin == None && ylmax == -1
    {
      hide Clean, Made, Live, Split, Flat, Slots, Sane, SlotsSet, SlotSet, AllSlots;
      var l, curr := 0, 0;
      ghost var bs: seq<array<char>>, made: seq<string> := [], [];
      ghost var k, clean := |Split(str)|, Clean(|Split(str)|);
      ghost var found := Slotted(lines[..], sizes[..], freed);
      InBoundsOf();
      AllInSlots(k);
      NothingMade();
      NoSlotsSet();
      assert str[0..] == str;
      while true
        invariant Sane() && Arrays() && l == |made| == |bs| < k && curr <= |str|
        invariant yline == old(yline)
        invariant SlotsSet(found, made)
        invariant clean ==> Made(bs, made) && fault == old(fault) && Clean(k)
        invariant clean ==> forall n: nat :: k <= n && old(Clean(n)) ==> Clean(n)
        invariant made + Split(str[curr..]) == Split(str)
        invariant forall b :: b in AllSlots() ==> fresh(b) || b in old(AllSlots())
        decreases |str| - curr
      {
        var lineLen := LineLength(str, curr);
        var line := str[curr..curr + lineLen];
        SplitNext(str, curr, lineLen, made);
        NotSetYet(found, made);
        ghost var b := MakeNext(l, line, k, bs, made, found);
        bs, made := bs + [b], made + [line];
        curr := curr + lineLen;
        if curr == |str| { break; }
        curr := curr + 1;
        l := l + 1;
      }
      Adopt(l, clean, bs, made);
      AllInSlots(LMAX);
      if clean {
        FewerAreClean(k);
        MadeSlots(bs, made);
      }
    }

    lemma FewerAreClean(k: nat)
      requires Clean(k)
      ensures forall n: nat :: n <= k ==> Clean(n)
    {}

    lemma MadeSlots(bs: seq<array<char>>, made: seq<string>)
      requires Arrays() && Made(bs, made)
      ensures forall l {:trigger bs[l]} :: 0 <= l < |bs| ==> bs[l] in AllSlots()
    {
      forall l | 0 <= l < |bs|
        ensures bs[l] in AllSlots()
      {
        assert lines[l] == bs[l];
      }
    }

    // The last statements of vi_set.
    method Adopt(l: nat, ghost clean: bool, ghost bs: seq<array<char>>, ghost made: seq<string>)
      requires Sane() && |made| == |bs| == l + 1 && (clean ==> Clean(l + 1) && Made(bs, made))
      modifies this`lmax, this`currl, this`off, this`begin, this`ylmax, this`text, this`blocks
      ensures clean ==> Ready() && text == made && blocks == bs
      ensures lmax == l && currl == 0 && off == 0 && begin == None && ylmax == -1
    {
      hide Shows;
      lmax, currl, off, begin, ylmax := l, 0, 0, None, -1;
      text, blocks := made, bs;
      if clean { CleanSlots(bs, made); }
    }

    lemma CleanSlots(bs: seq<array<char>>, made: seq<string>)
      requires Sane() && Made(bs, made) && Clean(|bs|)
      ensures Distinct(bs) && yline !in bs && forall b :: b in bs ==> b !in freed
      ensures forall i {:trigger bs[i]} :: 0 <= i < |bs| ==> sizes[i] == bs[i].Length
    {
      assert forall i :: 0 <= i < |bs| ==> SlotOk(i) && lines[i] == bs[i];
    }

    lemma AllInSlots(n: nat)
      requires Arrays() && n <= LMAX
      ensures forall l :: 0 <= l < n && lines[l] != null ==> lines[l] in Slots(n)
    {}

    lemma InBoundsOf()
      requires Sane()
      ensures Arrays()
    {}

    lemma NothingMade()
      requires Arrays()
      ensures Made([], [])
    {}

    // A slot shows its line, in a block that has not been freed.
    ghost predicate Displayed(l: nat, t: string)
      requires Arrays() && l < LMAX
      reads this`freed, lines, lens, lines[l]
    {
      lens[l] == |t| && lines[l] != null && lines[l] !in freed && Shows(lines[l], t)
    }

    ghost predicate Displays(made: seq<string>)
      reads this`freed, lines, lens, AllSlots()
    {
      Arrays() && |made| <= LMAX && forall l {:trigger made[l]} :: 0 <= l < |made| ==> Displayed(l, made[l])
    }

    lemma ReadyDisplays()
      requires Ready()
      ensures Displays(text)
    {
      forall l | 0 <= l < |text|
        ensures Displayed(l, text[l])
      {
        assert Shows(blocks[l], text[l]) && lines[l] == blocks[l] && blocks[l] in blocks;
      }
    }

    // Why the first k slots are not clean: one names a freed block, or slot j shares its block
    // with one before it.
    ghost predicate Spoiled(k: nat, j: nat)
      requires Arrays() && j < k <= LMAX
      reads this`freed, lines
    {
      || (exists l :: 0 <= l < k && lines[l] != null && lines[l] in freed)
      || (lines[j] != null && exists i :: 0 <= i < j && lines[i] == lines[j])
    }

    method SpoiledAt(k: nat) returns (j: nat)
      requires Arrays() && k <= LMAX && !Clean(k)
      ensures j < k && Spoiled(k, j)
    {
      for m := 0 to k
        invariant forall i, n :: 0 <= i < n < m && lines[i] != null ==> lines[i] != lines[n]
      {
        for i := 0 to m
          invariant forall n :: 0 <= n < i && lines[n] != null ==> lines[n] != lines[m]
        {
          if lines[i] != null && lines[i] == lines[m] { return m; }
        }
      }
      return 0;
    }

    // Set shows every text of k lines if the first k slots are clean, and only then: if they are
    // not, there is a text of k lines that is not shown, or a freed block is touched.
    method SetUnclean(k: nat) returns (str: string)
      requires Sane() && !fault && k <= LMAX && !Clean(k)
      modifies this, lines, sizes, lens, Slots(k)
      ensures |Split(str)| == k && (fault || !Displays(Split(str)))
    {
      hide Sane, Split, Join, Shows;
      InBoundsOf();
      var j := SpoiledAt(k);
      var made := OddLine(k, j);
      SplitJoin(made);
      str := Join(made);
      ghost var found := Slotted(lines[..], sizes[..], freed);
      ghost var block := lines[j];
      SlotSizes();
      Set(str);
      if l :| 0 <= l < k && found.blocks[l] != null && found.blocks[l] in found.freed {
        assert SlotSet(found, l, made[l]);
      } else {
        var i :| 0 <= i < j && found.blocks[i] == block;
        assert SlotSet(found, i, made[i]) && SlotSet(found, j, made[j]);
        if Displays(made) {
          assert Displayed(i, made[i]) && Displayed(j, made[j]);
          NotBoth(lines[i]);
        }
      }
    }

    lemma SlotOf(l: nat)
      requires Ready() && l < |text|
      ensures |blocks| == lmax + 1 && lines[l] == blocks[l] && sizes[l] == blocks[l].Length > |text[l]|
    {
      assert Shows(blocks[l], text[l]);
    }

    lemma SlotSizes()
      requires Sane()
      ensures forall l :: 0 <= l < LMAX && lines[l] != null ==> sizes[l] > 0
    {
      forall l | 0 <= l < LMAX && lines[l] != null
        ensures sizes[l] > 0
      {
        assert SlotOk(l);
      }
    }

    // vi_filesize
    method FileSize() returns (size: nat)
      requires Live()
      ensures size == |Flat(text)|
    {
      hide Flat;
      size := 0;
      FlatPrefix(text, 0);
      for l := 0 to lmax + 1
        invariant size == |Flat(text[..l])|
      {
        FlatPrefix(text, l);
        LengthAt(l);
        size := size + lens[l] + 1;
      }
      assert text[..lmax + 1] == text;
    }

    // vi_out: the lines, the last newline made the end of the string.
    method Out() returns (buf: array<char>)
      requires Live()
      ensures fresh(buf) && buf[..] == Join(text) + [0 as char]
    {
      hide Flat, Join;
      var filesize := FileSize();
      buf := new char[filesize](_ => EOL);
      var curr := 0;
      FlatPrefix(text, 0);
      for l := 0 to lmax + 1
        invariant curr == |Flat(text[..l])| <= filesize && buf[..curr] == Flat(text[..l])
      {
        FlatPrefix(text, l);
        FlatShorter(text, l + 1);
        var block := LineBlock(l);
        CopyBytes(buf, curr, block, lens[l] + 1);
        curr := curr + (lens[l] + 1);
      }
      assert text[..lmax + 1] == text;
      FlatIsJoin(text);
      buf[curr - 1] := 0 as char;
    }

    // lines[l] with its newline
    method LineBlock(l: nat) returns (block: array<char>)
      requires Live() && l < |text|
      ensures block == blocks[l] && lens[l] == |text[l]| < block.Length
      ensures block[..|text[l]| + 1] == text[l] + [EOL]
    {
      assert Shows(blocks[l], text[l]);
      block := lines[l];
    }

    // A line's block replaced by a new one, and freed: clean slots stay so.
    twostate lemma BlockMoved(l: nat)
      requires old(Live()) && l < |old(blocks)| && Arrays() && lines[l] != null && fresh(lines[l])
      requires freed == old(freed) + {old(blocks)[l]}
      requires forall i :: 0 <= i < LMAX && i != l ==> lines[i] == old(lines[i])
      ensures forall n: nat :: old(Clean(n)) ==> Clean(n)
      ensures forall b :: b in AllSlots() ==> b in old(AllSlots()) || fresh(b)
    {
      assert forall i :: 0 <= i < |old(blocks)| ==> old(lines[i]) == old(blocks)[i];
    }

    // vi_require_llen
    method RequireLen(size: nat)
      requires Valid() && Sane() && Unfreed()
      modifies this`blocks, this`freed, lines, sizes
      ensures Valid() && Kept() && blocks[currl].Length >= size
      ensures blocks == old(blocks)[currl := blocks[currl]]
      ensures fresh(blocks[currl]) || blocks[currl] == old(blocks[currl])
    {
      hide Clean, AllSlots;
      assert Shows(blocks[currl], text[currl]) && sizes[currl] == blocks[currl].Length;
      if sizes[currl] < size {
        GrowLine(size * 2);
      }
    }

    // The new block of realloc
    method LargerCopy(size: nat) returns (block: array<char>)
      requires Valid() && blocks[currl].Length < size
      ensures fresh(block) && block.Length == size && Shows(block, text[currl])
    {
      assert Shows(blocks[currl], text[currl]) && lines[currl] == blocks[currl];
      block := Realloc(lines[currl], size);
      assert block[..|text[currl]|] == lines[currl][..|text[currl]|];
    }

    // realloc of the cursor's line
    method GrowLine(size: nat)
      requires Valid() && Sane() && Unfreed() && blocks[currl].Length < size
      modifies this`blocks, this`freed, lines, sizes
      ensures Valid() && Kept() && blocks[currl].Length == size
      ensures blocks == old(blocks)[currl := blocks[currl]] && fresh(blocks[currl])
    {
      hide Live, Clean, AllSlots, Sane, Shows;
      InBounds();
      Rows();
      assert Row(currl, blocks[currl], text[currl]);
      var block := LargerCopy(size);
      freed := freed + {lines[currl]};
      lines[currl] := block;
      sizes[currl] := size;
      SlotReplaced(currl);
      BlockMoved(currl);
      ghost var bs := blocks[currl := block];
      forall j | 0 <= j < |blocks|
        ensures Row(j, bs[j], text[j])
      {
        assert old(Row(j, blocks[j], text[j]));
      }
      blocks := bs;
      RowsLive();
    }

    // vi_insert_safe: src goes in at the cursor, which ends on its last character.
    method InsertSafe(src: string)
      requires Valid() && Sane() && Unfreed() && EOL !in src
      modifies this`off, this`blocks, this`text, this`freed, lines, sizes, lens, blocks[currl]
      ensures Valid() && Kept()
      ensures text == old(text)[currl := Spliced(old(text[currl]), old(off), src)]
      ensures off == if src == "" then old(off) else old(off) + |src| - 1
      ensures blocks == old(blocks)[currl := blocks[currl]]
      ensures fresh(blocks[currl]) || blocks[currl] == old(blocks[currl])
    {
      hide Live;
      NewlineIsLast();
      RequireLen(lens[currl] + |src| + 1);
      if src == "" {
        assert Spliced(text[currl], off, "") == text[currl];
      } else {
        Insert(src);
      }
    }

    // vi_insert: the block is large enough.
    method Insert(src: string)
      requires Valid() && EOL !in src && src != "" && |text[currl]| + |src| < blocks[currl].Length
      modifies this`off, this`text, lens, blocks[currl]
      ensures Valid() && off == old(off) + |src| - 1
      ensures text == old(text)[currl := Spliced(old(text[currl]), old(off), src)]
    {
      hide Distinct;
      OnceEach();
      ghost var was, line := text, text[currl];
      assert Shows(blocks[currl], line) && lines[currl] == blocks[currl];
      var block: array<char> := lines[currl];
      var newlen := CharArrA(block, lens[currl], off - 1, src);
      block[newlen] := EOL;
      lens[currl] := lens[currl] + |src|;
      off := off + |src| - 1;
      text := text[currl := Spliced(line, old(off), src)];
      assert block[..newlen] == text[currl];
      forall l | 0 <= l < |blocks|
        ensures lens[l] == |text[l]| && Shows(blocks[l], text[l])
      {
        assert old(Shows(blocks[l], was[l])) && old(lens[l]) == |was[l]|;
      }
    }

    lemma OnceEach()
      requires Live()
      ensures forall i, j :: 0 <= i < |blocks| && 0 <= j < |blocks| && i != j ==> blocks[i] != blocks[j]
    {}

    // vi_append_safe: behind the cursor's character.
    method AppendSafe(src: string)
      requires Valid() && Sane() && Unfreed() && EOL !in src && off < |text[currl]|
      modifies this`off, this`blocks, this`text, this`freed, lines, sizes, lens, blocks[currl]
      ensures Valid() && Kept()
      ensures text == old(text)[currl := Spliced(old(text[currl]), old(off) + 1, src)]
      ensures off == old(off) + (if src == "" then 1 else |src|)
      ensures blocks == old(blocks)[currl := blocks[currl]]
      ensures fresh(blocks[currl]) || blocks[currl] == old(blocks[currl])
    {
      off := off + 1;
      InsertSafe(src);
    }

    // vi_del_within, from offset head to offset tail
    method DelWithin(head: nat, tail: nat)
      requires Valid() && head <= tail < |text[currl]|
      modifies this`off, this`text, lens, blocks[currl]
      ensures Valid()
      ensures text == old(text)[currl := Cut(old(text[currl]), head, tail - head + 1)]
      ensures off == if 0 < |text[currl]| == head then head - 1 else head
    {
      NewlineIsLast();
      ghost var was, line := text, text[currl];
      assert Shows(blocks[currl], line) && lines[currl] == blocks[currl];
      var block: array<char> := lines[currl];
      var len := ArrDel2(block, lens[currl], head, tail);
      block[len] := EOL;
      lens[currl] := len;
      off := head;
      if len != 0 && len == off { off := off - 1; }
      text := text[currl := Cut(line, head, tail - head + 1)];
      assert block[..len] == text[currl];
      forall l | 0 <= l < |blocks|
        ensures lens[l] == |text[l]| && Shows(blocks[l], text[l])
      {
        assert old(Shows(blocks[l], was[l])) && old(lens[l]) == |was[l]|;
      }
    }

    // VI_YLINE_MK(vi, 0, ...)
    method YlineMk(src: string)
      requires Ready() && EOL !in src
      modifies this`yline, this`ysize, this`ylen, this`freed, yline
      ensures Valid() && yline != null && ysize == yline.Length && ylen == |src| < ysize
      ensures yline !in blocks && yline[..ylen] == src && Kept()
    {
      YlineRoom(|src| + 1);
      hide Live, Kept;
      var block: array<char> := yline;
      WriteLine(block, src);
      ylen := |src|;
    }

    // A block of that size for the clipboard
    method YlineRoom(size: nat)
      requires Ready() && size > 0
      modifies this`yline, this`ysize, this`freed
      ensures Valid() && yline != null && ysize == yline.Length >= size
      ensures yline !in blocks && Kept() && (fresh(yline) || yline == old(yline))
    {
      hide Live, Clean, AllSlots;
      if ysize < size {
        freed := freed + if yline == null then {} else {yline};
        yline := new char[size];
        ysize := size;
        CleanWithout();
      }
    }

    // Freeing the clipboard's block spoils no slot.
    twostate lemma CleanWithout()
      requires old(Sane()) && freed == old(freed) + (if old(yline) == null then {} else {old(yline)})
      requires lines[..] == old(lines[..])
      ensures forall n: nat :: old(Clean(n)) ==> Clean(n)
    {
      assert forall l :: 0 <= l < LMAX ==> lines[..][l] == lines[l];
    }

    // vi_v: selection mode on, or off again.
    method V()
      modifies this`begin
      ensures begin == if old(begin) == None then Some(Pos(currl, off)) else None
    {
      begin := if begin == None then Some(Pos(currl, off)) else None;
    }

    // vi_$
    method Dollar()
      requires Valid()
      modifies this`off
      ensures Valid() && off == if text[currl] == "" then old(off) else |text[currl]| - 1
    {
      NewlineIsLast();
      if lens[currl] != 0 { off := lens[currl] - 1; }
    }

    // len characters of line l
    method Piece(l: nat, from: nat, len: nat) returns (s: string)
      requires Live() && l < |text| && from + len <= |text[l]|
      ensures s == text[l][from..from + len] && EOL !in s
    {
      hide Live;
      var block := LineBlock(l);
      NoNewline(l);
      SliceOfPrefix(block[..], text[l] + [EOL], from, len);
      SliceOfPrefix(text[l] + [EOL], text[l], from, len);
      s := block[from..from + len];
    }

    lemma NoNewline(l: nat)
      requires Live() && l < |text|
      ensures EOL !in text[l]
    {
      assert Shows(blocks[l], text[l]);
    }

    // vi_y_within
    method YWithin(head: nat, tail: nat)
      requires Ready() && head <= tail < |text[currl]|
      modifies this`yline, this`ysize, this`ylen, this`ylmax, this`freed, yline
      ensures Ready() && View() == old(View()).(clip := Some(Clip(yy, text[currl][head..tail + 1]))) && Kept()
    {
      hide Live;
      var src := Piece(currl, head, tail - head + 1);
      YlineMk(src);
      ylmax := 0;
    }

    // vi_y on a selection within one line, none of it a newline.
    method Y() returns (ok: bool, head: nat, tail: nat)
      requires Ready() && (begin.Some? ==> begin.value.l == currl)
      requires begin.Some? ==> begin.value.off < |text[currl]| && off < |text[currl]|
      modifies this`begin, this`yline, this`ysize, this`ylen, this`ylmax, this`yy, this`freed, yline
      ensures Ready() && begin == None && ok == old(begin).Some?
      ensures !ok ==> View() == old(View())
      ensures ok ==>
        && head == (if old(begin).value.off < off then old(begin).value.off else off)
        && tail == (if old(begin).value.off < off then off else old(begin).value.off)
        && View() == old(View()).(clip := Some(Clip(false, text[currl][head..tail + 1])))
      ensures Kept()
    {
      hide Live;
      if begin == None { return false, 0, 0; }
      yy := false;
      head, tail := begin.value.off, off;
      if head > tail { head, tail := tail, head; }
      YWithin(head, tail);
      V();
      return true, head, tail;
    }

    // vi_d, likewise
    method D() returns (ok: bool)
      requires Ready() && (begin.Some? ==> begin.value.l == currl)
      requires begin.Some? ==> begin.value.off < |text[currl]| && off < |text[currl]|
      modifies this`off, this`text, this`begin, this`yline, this`ysize, this`ylen, this`ylmax, this`yy, this`freed
      modifies lens, blocks[currl], yline
      ensures Ready() && begin == None && ok == old(begin).Some? && Kept()
      ensures !ok ==> View() == old(View())
      ensures ok ==> View() == Deleted(old(View()), old(begin).value.off)
      ensures ok ==>
        var line, from, to := old(text[currl]), old(begin).value.off, old(off);
        var head, tail := if from < to then from else to, if from < to then to else from;
        && text == old(text)[currl := line[..head] + line[tail + 1..]]
        && View().clip == Some(Clip(false, line[head..tail + 1]))
        && off == if 0 < |text[currl]| == head then head - 1 else head
    {
      hide Live;
      NewlineIsLast();
      var head, tail;
      ok, head, tail := Y();
      if !ok { return; }
      DelWithin(head, tail);
      return true;
    }

    // vi_d$
    method DTail()
      requires Ready() && begin == None && off < |text[currl]|
      modifies this`off, this`text, this`begin, this`yline, this`ysize, this`ylen, this`ylmax, this`yy, this`freed
      modifies lens, blocks[currl], yline
      ensures Ready() && begin == None && View() == TailDeleted(old(View())) && Kept()
      ensures text == old(text)[currl := old(text[currl])[..old(off)]]
      ensures View().clip == Some(Clip(false, old(text[currl])[old(off)..]))
    {
      hide Live;
      TailIsDeleted(View());
      V();
      Dollar();
      var ok := D();
    }

    ghost predicate Row(j: nat, block: array<char>, t: string)
      requires Arrays()
      reads lines, sizes, lens, block
    {
      && j < LMAX && lines[j] == block && sizes[j] == block.Length && lens[j] == |t|
      && Shows(block, t)
    }

    lemma Rows()
      requires Live()
      ensures |blocks| == |text| == lmax + 1
      ensures forall j :: 0 <= j < |blocks| ==> Row(j, blocks[j], text[j])
    {
      forall j | 0 <= j < |blocks|
        ensures Row(j, blocks[j], text[j])
      {
        assert Shows(blocks[j], text[j]);
      }
    }

    lemma RowsLive()
      requires Arrays() && |blocks| == |text| == lmax + 1 <= LMAX && Distinct(blocks)
      requires forall j :: 0 <= j < |blocks| ==> Row(j, blocks[j], text[j])
      ensures Live()
    {}

    // The old lines about a gap of lnum slots behind line l, k of which are made.
    ghost predicate Torn(l: nat, lnum: nat, nb: seq<array<char>>)
      requires Arrays() && |blocks| == |text|
      reads this`blocks, this`text, lines, sizes, lens, blocks, nb
    {
      && (forall j :: 0 <= j < |blocks| ==> Row(if j <= l then j else j + lnum, blocks[j], text[j]))
      && (forall i :: 0 <= i < |nb| ==> Row(l + 1 + i, nb[i], ""))
    }

    // The three shifts of VI_A_LINES
    method Tear(l: nat, lnum: nat)
      requires Live() && Sane() && l <= lmax && lmax + 1 + lnum <= LMAX
      modifies lines, sizes, lens
      ensures Sane() && |blocks| == |text| && Torn(l, lnum, [])
      ensures forall i :: lmax + 1 + lnum <= i < LMAX ==> lines[i] == old(lines[i])
      ensures forall i :: l < i <= l + lnum ==> lines[i] == null && sizes[i] == 0
    {
      hide Live, Shows, Spliced;
      Rows();
      OpenSlots(lmax + 1, l, lnum);
      hide Sane;
      var _ := ArrInsert(lens, lmax + 1, l, lnum, 0);
      forall j | 0 <= j < |blocks|
        ensures Row(if j <= l then j else j + lnum, blocks[j], text[j])
      {
        assert old(Row(j, blocks[j], text[j]));
        assert lines[..][if j <= l then j else j + lnum] == old(lines[..])[j];
        assert sizes[..][if j <= l then j else j + lnum] == old(sizes[..])[j];
        assert lens[..][if j <= l then j else j + lnum] == old(lens[..])[j];
      }
      forall i | lmax + 1 + lnum <= i < LMAX
        ensures lines[i] == old(lines[i])
      {
        assert lines[..][i] == old(lines[..])[i];
      }
    }

    // The shifts of the slots and their sizes
    method OpenSlots(n: nat, l: nat, lnum: nat)
      requires Sane() && l < n && n + lnum <= LMAX
      modifies lines, sizes
      ensures Sane() && Opened(old(lines[..]), lines[..], n, l, lnum) && Opened(old(sizes[..]), sizes[..], n, l, lnum)
      ensures forall i :: l < i <= l + lnum ==> lines[i] == null && sizes[i] == 0
    {
      var _ := ArrInsert(lines, n, l, lnum, null);
      var _ := ArrInsert(sizes, n, l, lnum, 0);
      forall i | 0 <= i < LMAX
        ensures SlotOk(i) && (lines[i] != null ==> lines[i] != yline)
      {
        var j := if l < i <= l + lnum then LMAX else if l + lnum < i < n + lnum then i - lnum else i;
        if j < LMAX {
          assert old(SlotOk(j));
          assert lines[..][i] == old(lines[..])[j] && sizes[..][i] == old(sizes[..])[j];
        }
      }
    }

    // VI_A_LINES: empty lines behind line l.
    method ALines(l: nat, lnum: nat) returns (ghost nb: seq<array<char>>)
      requires Live() && Sane() && Unfreed() && l <= lmax && lmax + 1 + lnum <= LMAX
      modifies this`lmax, this`blocks, this`text, this`freed, this`fault, lines, sizes, lens
      ensures Live() && Kept() && lmax == old(lmax) + lnum
      ensures text == Spliced(old(text), l + 1, seq(lnum, _ => ""))
      ensures blocks == Spliced(old(blocks), l + 1, nb) && |nb| == lnum && forall b :: b in nb ==> fresh(b)
    {
      hide Live, Torn, Sane, Clean, AllSlots;
      nb := [];
      InBounds();
      Tear(l, lnum);
      for i := l + 1 to l + lnum + 1
        invariant blocks == old(blocks) && text == old(text) && lmax == old(lmax)
        invariant Sane() && freed == old(freed) && fault == old(fault)
        invariant forall j :: lmax + 1 + lnum <= j < LMAX ==> lines[j] == old(lines[j])
        invariant |nb| == i - (l + 1) && Torn(l, lnum, nb)
        invariant forall j :: i <= j <= l + lnum ==> lines[j] == null && sizes[j] == 0
        invariant Distinct(nb) && forall b :: b in nb ==> fresh(b)
      {
        ghost var b := MakeEmpty(i, l, lnum, nb);
        nb := nb + [b];
      }
      ghost var empty := seq(lnum, _ => "");
      TornWhole(l, lnum, nb);
      lmax := lmax + lnum;
      blocks, text := Spliced(blocks, l + 1, nb), Spliced(text, l + 1, empty);
      RowsLive();
      BehindUnchanged();
    }

    // More lines, the slots behind them unchanged: clean slots stay so.
    twostate lemma BehindUnchanged()
      requires old(Live()) && Live() && Unfreed() && freed == old(freed) && lmax >= old(lmax)
      requires forall b :: b in blocks ==> b in old(blocks) || fresh(b)
      requires forall j :: lmax < j < LMAX ==> lines[j] == old(lines[j])
      ensures forall n: nat :: old(Clean(n)) ==> Clean(n)
      ensures forall b :: b in AllSlots() ==> b in old(AllSlots()) || fresh(b)
    {
      OnceEach();
      assert forall i :: 0 <= i <= lmax ==> lines[i] == blocks[i] && blocks[i] in blocks;
      assert forall i :: 0 <= i <= old(lmax) ==> old(lines[i]) == old(blocks)[i];
      forall n: nat | old(Clean(n))
        ensures Clean(n)
      {
        forall i, j | 0 <= i < j < n && lines[i] != null
          ensures lines[i] != lines[j]
        {
          if i <= lmax < j && lines[i] in old(blocks) {
            var k :| 0 <= k <= old(lmax) && old(blocks)[k] == lines[i];
            assert old(lines[k]) != old(lines[j]);
          }
        }
      }
    }

    lemma InBounds()
      requires Live()
      ensures Arrays() && |blocks| == |text| == lmax + 1 <= LMAX && Distinct(blocks)
    {}

    method MakeEmpty(i: nat, l: nat, lnum: nat, ghost nb: seq<array<char>>) returns (ghost b: array<char>)
      requires Sane() && |blocks| == |text| && l < |blocks| && |blocks| + lnum <= LMAX
      requires Torn(l, lnum, nb) && l < i <= l + lnum && |nb| == i - (l + 1)
      requires lines[i] == null && sizes[i] == 0
      modifies this`freed, this`fault, lines, sizes, lens
      ensures Sane() && freed == old(freed) && fault == old(fault)
      ensures Torn(l, lnum, nb + [b]) && fresh(b)
      ensures forall j :: 0 <= j < LMAX && j != i ==> lines[j] == old(lines[j])
      ensures forall j :: 0 <= j < LMAX && j != i ==> sizes[j] == old(sizes[j])
    {
      LineMk(i, "");
      b := lines[i];
      assert SlotOk(i);
      forall j | 0 <= j < |blocks|
        ensures Row(if j <= l then j else j + lnum, blocks[j], text[j])
      {
        assert old(Row(if j <= l then j else j + lnum, blocks[j], text[j]));
      }
      forall j | 0 <= j < |nb|
        ensures Row(l + 1 + j, nb[j], "")
      {
        assert old(Row(l + 1 + j, nb[j], ""));
      }
    }

    lemma TornWhole(l: nat, lnum: nat, nb: seq<array<char>>)
      requires Arrays() && |blocks| == |text| && l < |blocks| && Torn(l, lnum, nb) && |nb| == lnum
      requires Distinct(blocks) && Distinct(nb) && forall b :: b in nb ==> b !in blocks
      ensures
        var bs, t := Spliced(blocks, l + 1, nb), Spliced(text, l + 1, seq(lnum, _ => ""));
        Distinct(bs) && forall j :: 0 <= j < |bs| ==> Row(j, bs[j], t[j])
    {
      var bs, t := Spliced(blocks, l + 1, nb), Spliced(text, l + 1, seq(lnum, _ => ""));
      forall j | 0 <= j < |bs|
        ensures Row(j, bs[j], t[j])
      {
        if l < j <= l + lnum {
          assert Row(l + 1 + (j - l - 1), nb[j - l - 1], "");
        } else {
          var k := if j <= l then j else j - lnum;
          assert Row(if k <= l then k else k + lnum, blocks[k], text[k]);
        }
      }
      SplicedDistinct(blocks, l + 1, nb);
    }

    // VI_DEL_LINES: lines l to l + lnum - 1 go, though not all there are. The slots behind the
    // last line are left as they were; the first of them names a block that is in use or freed.
    method DelLines(l: nat, lnum: nat)
      requires Live() && Sane() && Unfreed() && l + lnum <= lmax + 1 && 0 < lnum <= lmax
      modifies this`lmax, this`blocks, this`text, this`freed, lines, sizes, lens
      ensures Live() && Sane() && Unfreed() && lmax == old(lmax) - lnum
      ensures forall j :: lmax < j < LMAX ==> lines[j] == old(lines[j])
      ensures forall n: nat :: Clean(n) <==> n <= lmax + 1
      ensures forall b :: b in AllSlots() ==> b in old(AllSlots())
      ensures text == Cut(old(text), l, lnum) && blocks == Cut(old(blocks), l, lnum)
    {
      hide Live, Row, Cut, Sane, Slots, Clean;
      InBounds();
      FreeLines(l, lnum);
      CutUnfreed(blocks, l, lnum, old(freed), freed);
      CloseGap(l, lnum);
      CutDistinct(blocks, l, lnum);
      CutLength(blocks, text, l, lnum);
      lmax := lmax - lnum;
      blocks, text := Cut(blocks, l, lnum), Cut(text, l, lnum);
      RowsLive();
      FewerClean();
    }

    // free of each line's block
    method FreeLines(l: nat, lnum: nat)
      requires Live() && Sane() && l + lnum <= lmax + 1
      modifies this`freed
      ensures Sane() && freed == old(freed) + Members(blocks[l..l + lnum])
    {
      for i := l to l + lnum
        invariant Sane() && freed == old(freed) + Members(blocks[l..i])
      {
        assert lines[i] == blocks[i] && blocks[l..i + 1] == blocks[l..i] + [blocks[i]];
        if lines[i] != null {
          freed := freed + {lines[i]};
        }
      }
    }

    // The three shifts of VI_DEL_LINES
    method CloseGap(l: nat, lnum: nat)
      requires Live() && Sane() && l + lnum <= lmax + 1
      modifies lines, sizes, lens
      ensures Sane() && Arrays() && |blocks| == |text| == lmax + 1
      ensures forall j :: lmax + 1 - lnum <= j < LMAX ==> lines[j] == old(lines[j])
      ensures forall b :: b in AllSlots() ==> b in old(AllSlots())
      ensures
        var bs, t := Cut(blocks, l, lnum), Cut(text, l, lnum);
        forall j :: 0 <= j < |bs| ==> Row(j, bs[j], t[j])
    {
      hide Live, Shows;
      InBounds();
      Rows();
      DropCells(lines, lmax + 1, l, lnum);
      DropCells(sizes, lmax + 1, l, lnum);
      DropCells(lens, lmax + 1, l, lnum);
      ghost var bs, t := Cut(blocks, l, lnum), Cut(text, l, lnum);
      forall j | 0 <= j < |bs|
        ensures Row(j, bs[j], t[j])
      {
        var k := if j < l then j else j + lnum;
        assert old(Row(k, blocks[k], text[k]));
      }
      forall i | 0 <= i < LMAX
        ensures SlotOk(i) && (lines[i] != null ==> lines[i] != yline && lines[i] in old(AllSlots()))
      {
        var j := if l <= i < lmax + 1 - lnum then i + lnum else i;
        assert old(SlotOk(j)) && lines[i] == old(lines[j]) && sizes[i] == old(sizes[j]);
      }
    }

    // Lines gone, the slots behind them unchanged, the first of which names a block that is in
    // use or freed: just the slots of the lines are clean.
    twostate lemma FewerClean()
      requires old(Live()) && Live() && Unfreed() && lmax < old(lmax)
      requires forall j :: lmax < j < LMAX ==> lines[j] == old(lines[j])
      requires old(blocks)[lmax + 1] in freed || old(blocks)[lmax + 1] in blocks
      ensures forall n: nat :: Clean(n) <==> n <= lmax + 1
    {
      OnceEach();
      assert forall i :: 0 <= i <= lmax ==> lines[i] == blocks[i] && blocks[i] in blocks;
      var k := lmax + 1;
      assert lines[k] == old(lines[k]) == old(blocks)[k];
      if lines[k] in blocks {
        var i :| 0 <= i < |blocks| && blocks[i] == lines[k];
        assert lines[i] == lines[k];
      }
    }

    // VI_LINE_MK on a line in use
    method LineRemake(l: nat, src: string)
      requires Live() && Sane() && Unfreed() && l < |text| && EOL !in src
      modifies this`blocks, this`text, this`freed, this`fault, lines, sizes, lens, blocks[l]
      ensures Live() && Kept() && text == old(text)[l := src] && blocks == old(blocks)[l := blocks[l]]
      ensures fresh(blocks[l]) || blocks[l] == old(blocks[l])
    {
      hide Live, Shows;
      InBounds();
      Rows();
      assert Row(l, blocks[l], text[l]);
      LineMk(l, src);
      assert SlotOk(l);
      if lines[l] != old(lines[l]) { BlockMoved(l); }
      ghost var bs, t := blocks[l := lines[l]], text[l := src];
      forall j | 0 <= j < |blocks|
        ensures Row(j, bs[j], t[j])
      {
        assert old(Row(j, blocks[j], text[j]));
      }
      blocks, text := bs, t;
      RowsLive();
    }

    // vi_yy
    method YY()
      requires Ready()
      modifies this`yline, this`ysize, this`ylen, this`ylmax, this`yy, this`freed, yline
      ensures Ready() && View() == Yanked(old(View())) && yline != null && Kept()
      ensures text == old(text) && View().clip == Some(Clip(true, text[currl]))
    {
      hide Live, Clean, AllSlots;
      NewlineIsLast();
      yy := true;
      var src := Piece(currl, 0, lens[currl]);
      assert src == text[currl];
      YlineMk(src);
      ylmax := 0;
    }

    // vi_paste_yy, the clipboard holding one line
    method PasteYY()
      requires Ready() && ylmax == 0 && yy && lmax + 1 < LMAX
      modifies this`lmax, this`currl, this`off, this`blocks, this`text, this`freed, this`fault, lines, sizes, lens
      ensures Ready() && View() == Pasted(old(View())) && Kept()
      ensures text == old(text)[..old(currl) + 1] + [yline[..ylen]] + old(text)[old(currl) + 1..]
      ensures currl == old(currl) + 1 && off == 0
    {
      hide Live, Clean, AllSlots, Unfreed;
      ghost var was, e := text, View();
      NewlineIsLast();
      ghost var nb := ALines(currl, 1);
      InBounds();
      assert blocks[currl + 1] == nb[0] && nb[0] in nb;
      LineRemake(currl + 1, yline[..ylen]);
      assert text == Spliced(was, currl + 1, [yline[..ylen]]);
      currl := currl + 1;
      off := 0;
    }

    // vi_paste_line
    method PasteLine()
      requires Ready() && ylmax == 0 && !yy && (text[currl] != "" ==> off < |text[currl]|)
      modifies this`off, this`blocks, this`text, this`freed, lines, sizes, lens, blocks[currl]
      ensures Ready() && View() == Pasted(old(View())) && Kept()
      ensures
        var line, x := old(text[currl]), yline[..ylen];
        if line == "" then text == old(text)[currl := x] && off == if x == "" then 0 else |x| - 1
        else
          && text == old(text)[currl := line[..old(off) + 1] + x + line[old(off) + 1..]]
          && off == if x == "" then old(off) + 1 else old(off) + |x|
    {
      hide Live;
      NewlineIsLast();
      var src := yline[..ylen];
      if lens[currl] == 0 {
        assert Spliced("", 0, src) == src;
        InsertSafe(src);
      } else {
        AppendSafe(src);
      }
    }

    // vi_p, the clipboard holding one line at most
    method P() returns (ok: bool)
      requires Ready() && (ylmax == 0 && yy ==> lmax + 1 < LMAX)
      requires ylmax == 0 && !yy && text[currl] != "" ==> off < |text[currl]|
      modifies this`lmax, this`currl, this`off, this`blocks, this`text, this`freed, this`fault
      modifies lines, sizes, lens, blocks[currl]
      ensures Ready() && ok == old(View()).clip.Some? && Kept()
      ensures View() == if ok then Pasted(old(View())) else old(View())
      ensures ok ==>
        var line, x := old(text[currl]), yline[..ylen];
        if yy then text == old(text)[..old(currl) + 1] + [x] + old(text)[old(currl) + 1..]
        else if line == "" then text == old(text)[currl := x]
        else text == old(text)[currl := line[..old(off) + 1] + x + line[old(off) + 1..]]
      ensures ok && yy ==> currl == old(currl) + 1 && off == 0
      ensures ok && !yy && ylen > 0 ==>
        currl == old(currl) && off + 1 == ylen + if old(text[currl]) == "" then 0 else old(off) + 1
    {
      if ylmax < 0 { return false; }
      if yy {
        PasteYY();
        return true;
      }
      PasteLine();
      return true;
    }

    // vi_dd, not on the only line
    method DD()
      requires Ready() && lmax > 0
      modifies this, lines, sizes, lens, yline
      ensures Ready() && View() == LineDeleted(old(View())) && Own() && fault == old(fault)
      ensures text == old(text)[..old(currl)] + old(text)[old(currl) + 1..]
      ensures View().clip == Some(Clip(true, old(text[currl])))
      ensures currl == (if old(currl) > lmax then lmax else old(currl)) && off == 0
      ensures blocks == Cut(old(blocks), old(currl), 1)
      ensures forall j :: lmax < j < LMAX ==> lines[j] == old(lines[j])
      ensures forall n: nat :: Clean(n) <==> n <= lmax + 1
    {
      hide Live, Clean, AllSlots;
      YY();
      DropCurrent();
    }

    // The cursor's line deleted
    method DropCurrent()
      requires Ready() && lmax > 0
      modifies this`lmax, this`currl, this`off, this`blocks, this`text, this`freed, lines, sizes, lens
      ensures Ready() && text == Cut(old(text), old(currl), 1) && blocks == Cut(old(blocks), old(currl), 1)
      ensures off == 0 && currl == if old(currl) > lmax then lmax else old(currl)
      ensures |text| == lmax + 1 == old(lmax)
      ensures forall b :: b in AllSlots() ==> b in old(AllSlots())
      ensures forall j :: lmax < j < LMAX ==> lines[j] == old(lines[j])
      ensures forall n: nat :: Clean(n) <==> n <= lmax + 1
    {
      hide Live, Clean, AllSlots, Sane;
      InBounds();
      DelLines(currl, 1);
      InBounds();
      if currl > lmax { currl := lmax; }
      off := 0;
    }
  }

  // Two lines set, dd on the first, two lines set again: both slots name one block.
  method SetAfterDD() returns (v: TextBuffer)
    ensures !v.Displays(["x", "y"]) && v.lines.Length == LMAX && v.lines[0] == v.lines[1]
  {
    hide TextBuffer.Live, Split;
    v := new TextBuffer();
    TwoLines();
    v.Set("ab\ncd");
    v.SlotOf(1);
    ghost var b := v.blocks[1];
    v.DD();
    v.SlotOf(0);
    assert v.SlotOk(1);
    SetAliased(v, "x\ny", ["x", "y"], 0, 1, b);
  }

  // Two slots that name one large enough block cannot show two lines of one length.
  method SetAliased(v: TextBuffer, str: string, ghost made: seq<string>, ghost i: nat, ghost j: nat,
                    ghost b: array<char>)
    requires v.Sane() && made == Split(str) && i < j < |made| <= LMAX && v.lines[i] == v.lines[j] == b
    requires |made[i]| == |made[j]| < v.sizes[i] && |made[j]| < v.sizes[j] && made[i] != made[j]
    modifies v, v.lines, v.sizes, v.lens, v.Slots(|made|)
    ensures !v.Displays(made) && v.lines[i] == v.lines[j]
  {
    hide TextBuffer.Sane, TextBuffer.Clean, TextBuffer.Live, Split;
    ghost var found := Slotted(v.lines[..], v.sizes[..], v.freed);
    v.Set(str);
    assert v.SlotSet(found, i, made[i]) && v.SlotSet(found, j, made[j]);
    assert !(v.Displayed(i, made[i]) && v.Displayed(j, made[j]));
  }

  lemma TwoLines()
    ensures Split("ab\ncd") == ["ab", "cd"] && Split("x\ny") == ["x", "y"]
  {
    hide Split;
    assert Join(["ab", "cd"]) == "ab\ncd" && Join(["x", "y"]) == "x\ny";
    SplitJoin(["ab", "cd"]);
    SplitJoin(["x", "y"]);
  }

  // A text and its newline at the start of a block
  method WriteLine(block: array<char>, src: string)
    requires |src| < block.Length && EOL !in src
    modifies block
    ensures Shows(block, src)
  {
    Fill(block, 0, src);
    block[|src|] := EOL;
    assert block[..|src|] == src;
  }

  // memcpy to a buffer that is no line
  method CopyBytes(buf: array<char>, at: nat, src: array<char>, n: nat)
    requires buf != src && at + n <= buf.Length && n <= src.Length
    modifies buf
    ensures buf[..at + n] == old(buf[..at]) + src[..n]
  {
    for i := 0 to n
      invariant buf[..at] == old(buf[..at]) && buf[at..at + i] == src[..i]
    {
      buf[at + i] := src[i];
    }
  }

  // realloc to a larger block
  method Realloc(block: array<char>, size: nat) returns (larger: array<char>)
    requires block.Length <= size
    ensures fresh(larger) && larger.Length == size && larger[..block.Length] == block[..]
  {
    larger := new char[size](_ => EOL);
    CopyBytes(larger, 0, block, block.Length);
  }

  // strlen_ex(curr, "\n"), the text having no NUL
  method LineLength(str: string, curr: nat) returns (n: nat)
    requires curr <= |str|
    ensures curr + n <= |str| && EOL !in str[curr..curr + n]
    ensures curr + n < |str| ==> str[curr + n] == EOL
  {
    n := 0;
    while curr + n < |str| && str[curr + n] != EOL
      invariant curr + n <= |str| && EOL !in str[curr..curr + n]
    {
      n := n + 1;
    }
  }

  // Nothing seemed matched from p up to c, and the counters say how the brackets stand there.
  ghost predicate Counted(flat: string, it: char, buddy: char, p: nat, c: nat, nr: (nat, nat))
    requires p <= c <= |flat|
  {
    && nr.0 < 256 && nr.1 < 256 && (nr.0 - nr.1 - Balance(flat, it, buddy, p, c)) % 256 == 0
    && (forall r :: p <= r < c ==> !SeemsMatched(flat, it, buddy, p, r))
  }

  // Counters wrap at 256 and so keep the balance modulo 256.
  lemma CountersWrap(a: nat, b: nat, balance: int)
    requires a < 256 && b < 256 && (a - b - balance) % 256 == 0
    ensures ((a + 1) % 256 - b - (balance + 1)) % 256 == 0
    ensures (a - (b + 1) % 256 - (balance - 1)) % 256 == 0
    ensures (b + 1) % 256 == a <==> (balance - 1) % 256 == 0
  {
    var d := (a - b - balance) / 256;
    assert balance == a - b - 256 * d;
    assert (a + 1) % 256 == if a == 255 then 0 else a + 1;
    assert (b + 1) % 256 == if b == 255 then 0 else b + 1;
  }

  lemma CountOne(flat: string, it: char, buddy: char, p: nat, c: nat, nr: (nat, nat))
    requires p <= c < |flat| && it != buddy && Counted(flat, it, buddy, p, c, nr)
    ensures flat[c] == it ==> Counted(flat, it, buddy, p, c + 1, ((nr.0 + 1) % 256, nr.1))
    ensures flat[c] == buddy ==>
      if (nr.1 + 1) % 256 == nr.0 then SeemsMatched(flat, it, buddy, p, c)
      else Counted(flat, it, buddy, p, c + 1, (nr.0, (nr.1 + 1) % 256))
    ensures flat[c] != it && flat[c] != buddy ==> Counted(flat, it, buddy, p, c + 1, nr)
  {
    var balance := Balance(flat, it, buddy, p, c);
    assert Balance(flat, it, buddy, p, c + 1) == balance + Weight(flat[c], it, buddy);
    CountersWrap(nr.0, nr.1, balance);
  }

  predicate Buddies(c: char, d: char) {
    match c
    case '(' => d == ')'
    case ')' => d == '('
    case '[' => d == ']'
    case ']' => d == '['
    case '{' => d == '}'
    case '}' => d == '{'
    case '<' => d == '>'
    case '>' => d == '<'
    case _ => false
  }

  lemma PairsDiffer(k: nat)
    requires k < 8
    ensures PAIRS[k] != BUDDIES[k] && PAIRS[k] != EOL && BUDDIES[k] != EOL
    ensures Buddies(PAIRS[k], BUDDIES[k])
  {}

  lemma PairOnce(k: nat)
    requires k < 8
    ensures forall i :: 0 <= i < 8 && PAIRS[i] == PAIRS[k] ==> i == k
  {}
}
