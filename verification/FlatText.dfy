// A text buffer's lines as one flat string, each line ended by a newline; cursors as
// positions in it; words; and the text a file holds (lsh/vi.h, lsh/vi.c).
module FlatText {

  const EOL: char := '\n'

  function Flat(lines: seq<string>): string {
    if lines == [] then "" else lines[0] + [EOL] + Flat(lines[1..])
  }

  // A cursor stands on a character of its line or on the newline that ends it.
  predicate OnText(lines: seq<string>, l: nat, off: nat) {
    l < |lines| && off <= |lines[l]|
  }

  function CharAt(lines: seq<string>, l: nat, off: nat): char
    requires OnText(lines, l, off)
  {
    if off < |lines[l]| then lines[l][off] else EOL
  }

  // The flat index of a cursor.
  function Index(lines: seq<string>, l: nat, off: nat): nat
    requires OnText(lines, l, off)
  {
    if l == 0 then off else |lines[0]| + 1 + Index(lines[1..], l - 1, off)
  }

  lemma {:induction false} IndexInFlat(lines: seq<string>, l: nat, off: nat)
    requires OnText(lines, l, off)
    ensures Index(lines, l, off) < |Flat(lines)|
    ensures Flat(lines)[Index(lines, l, off)] == CharAt(lines, l, off)
  {
    if l > 0 { IndexInFlat(lines[1..], l - 1, off); }
  }

  // To the right within the line, or from its end to the next line.
  lemma {:induction false} NextIndex(lines: seq<string>, l: nat, off: nat)
    requires OnText(lines, l, off)
    ensures off < |lines[l]| ==> Index(lines, l, off + 1) == Index(lines, l, off) + 1
    ensures off == |lines[l]| && l + 1 < |lines| ==> Index(lines, l + 1, 0) == Index(lines, l, off) + 1
    ensures off == |lines[l]| && l + 1 == |lines| ==> Index(lines, l, off) + 1 == |Flat(lines)|
  {
    if l > 0 {
      NextIndex(lines[1..], l - 1, off);
    } else if |lines| == 1 {
      assert Flat(lines[1..]) == "";
    }
  }

  // The one cursor with a given index.
  lemma {:induction false} OneCursor(lines: seq<string>, l: nat, off: nat, l': nat, off': nat)
    requires OnText(lines, l, off) && OnText(lines, l', off')
    requires Index(lines, l, off) == Index(lines, l', off')
    ensures l == l' && off == off'
  {
    if l > 0 && l' > 0 { OneCursor(lines[1..], l - 1, off, l' - 1, off'); }
  }

  predicate IsBlank(c: char) {
    c == '\t' || c == ' ' || c == EOL
  }

  predicate IsCword(c: char) {
    'a' <= c <= 'z' || 'A' <= c <= 'Z' || '0' <= c <= '9' || c == '_'
  }

  // Where a word starts, and every other character that is no blank.
  predicate Stop(flat: string, p: nat)
    requires p < |flat|
  {
    if IsCword(flat[p]) then p == 0 || !IsCword(flat[p - 1]) else !IsBlank(flat[p])
  }

  predicate NoStopIn(flat: string, lo: nat, hi: nat)
    requires hi <= |flat|
  {
    forall p :: lo <= p < hi ==> !Stop(flat, p)
  }

  predicate IsNextStop(flat: string, p: nat, q: nat) {
    p < q < |flat| && Stop(flat, q) && NoStopIn(flat, p + 1, q)
  }

  predicate IsPrevStop(flat: string, p: nat, q: nat) {
    q < p < |flat| && Stop(flat, q) && NoStopIn(flat, q + 1, p)
  }

  // From a stop to the next and back: the way back ends where it began.
  lemma BackFromNext(flat: string, p: nat, q: nat, r: nat)
    requires p < |flat| && Stop(flat, p) && IsNextStop(flat, p, q) && IsPrevStop(flat, q, r)
    ensures r == p
  {
    assert !(p + 1 <= r < q);
    assert !(r + 1 <= p < q);
  }

  // From a stop to the next there is one word, or one other character, and then blanks only.
  lemma {:induction false} TokenThenBlanks(flat: string, p: nat, q: nat) returns (m: nat)
    requires p < q <= |flat| && Stop(flat, p) && NoStopIn(flat, p + 1, q)
    ensures p < m <= q
    ensures forall i :: p <= i < m ==>
      m == p + 1 || 'a' <= flat[i] <= 'z' || 'A' <= flat[i] <= 'Z' || '0' <= flat[i] <= '9' || flat[i] == '_'
    ensures forall i :: m <= i < q ==> flat[i] == ' ' || flat[i] == '\t' || flat[i] == '\n'
  {
    m := q;
    if p + 1 < q {
      m := TokenThenBlanks(flat, p, q - 1);
      assert !Stop(flat, q - 1);
      if IsCword(flat[q - 1]) { m := q; }
    }
  }

  // The lines of a file, and the file of some lines: no newline after the last.
  function Split(s: string): (lines: seq<string>)
    ensures lines != []
  {
    if s == "" then [""]
    else if s[0] == EOL then [""] + Split(s[1..])
    else var rest := Split(s[1..]); [[s[0]] + rest[0]] + rest[1..]
  }

  function Join(lines: seq<string>): string
    requires lines != []
  {
    if |lines| == 1 then lines[0] else lines[0] + [EOL] + Join(lines[1..])
  }

  lemma {:induction false} JoinSplit(s: string)
    ensures Join(Split(s)) == s
  {
    if s != "" {
      JoinSplit(s[1..]);
      var rest := Split(s[1..]);
      assert s == [s[0]] + Join(rest);
      if s[0] == EOL {
        assert ([""] + rest)[1..] == rest;
      } else {
        PushFirst(s[0], rest);
      }
    }
  }

  lemma PushFirst(c: char, lines: seq<string>)
    requires lines != []
    ensures Join([[c] + lines[0]] + lines[1..]) == [c] + Join(lines)
  {
    var more := [[c] + lines[0]] + lines[1..];
    assert more[1..] == lines[1..];
    if |lines| > 1 {
      assert [c] + lines[0] + [EOL] + Join(lines[1..]) == [c] + (lines[0] + [EOL] + Join(lines[1..]));
    }
  }

  lemma {:induction false} SplitHasNoEol(s: string)
    ensures forall l :: 0 <= l < |Split(s)| ==> EOL !in Split(s)[l]
  {
    if s != "" { SplitHasNoEol(s[1..]); }
  }

  lemma {:induction false} SplitJoin(lines: seq<string>)
    requires lines != [] && forall l :: 0 <= l < |lines| ==> EOL !in lines[l]
    ensures Split(Join(lines)) == lines
    decreases |lines|, if lines == [] then 0 else |lines[0]|
  {
    if lines[0] != "" {
      var first := lines[0];
      SplitJoin([first[1..]] + lines[1..]);
      assert Join(lines)[1..] == Join([first[1..]] + lines[1..]) by { JoinTail(lines); }
      assert Join(lines)[0] == first[0];
      assert first[0] in first && [first[0]] + first[1..] == first;
    } else if |lines| > 1 {
      SplitJoin(lines[1..]);
      assert Join(lines)[0] == EOL && Join(lines)[1..] == Join(lines[1..]);
    }
  }

  lemma JoinTail(lines: seq<string>)
    requires lines != [] && lines[0] != ""
    ensures Join(lines) != "" && Join(lines)[1..] == Join([lines[0][1..]] + lines[1..])
  {
    var less := [lines[0][1..]] + lines[1..];
    assert less[1..] == lines[1..];
  }

  // The flat text is the file with a newline added.
  lemma {:induction false} FlatIsJoin(lines: seq<string>)
    requires lines != []
    ensures Flat(lines) == Join(lines) + [EOL]
  {
    if |lines| > 1 { FlatIsJoin(lines[1..]); } else { assert Flat(lines[1..]) == ""; }
  }

  lemma {:induction false} FlatAppend(lines: seq<string>, line: string)
    ensures Flat(lines + [line]) == Flat(lines) + line + [EOL]
  {
    if lines == [] {
      assert lines + [line] == [line] && Flat([line][1..]) == "";
    } else {
      assert (lines + [line])[1..] == lines[1..] + [line];
      FlatAppend(lines[1..], line);
    }
  }

  // The first line of a file ends at its first newline, or with the file.
  lemma {:induction false} SplitFirst(s: string, n: nat)
    requires n <= |s| && EOL !in s[..n] && (n < |s| ==> s[n] == EOL)
    ensures Split(s) == if n == |s| then [s] else [s[..n]] + Split(s[n + 1..])
  {
    if n > 0 {
      assert s[0] == s[..n][0];
      assert s[1..][..n - 1] == s[..n][1..];
      SplitFirst(s[1..], n - 1);
      assert s == [s[0]] + s[1..];
      if n < |s| {
        assert s[1..][n..] == s[n + 1..];
        assert [s[0]] + s[1..][..n - 1] == s[..n];
      }
    }
  }

  // One line more of a file that is being split from position curr on.
  lemma SplitNext(s: string, curr: nat, n: nat, made: seq<string>)
    requires curr + n <= |s| && EOL !in s[curr..curr + n] && (curr + n < |s| ==> s[curr + n] == EOL)
    requires made + Split(s[curr..]) == Split(s)
    ensures curr + n == |s| ==> made + [s[curr..curr + n]] == Split(s)
    ensures curr + n < |s| ==>
      && made + [s[curr..curr + n]] + Split(s[curr + n + 1..]) == Split(s)
      && |made| + 1 < |Split(s)|
  {
    assert s[curr..][..n] == s[curr..curr + n];
    SplitFirst(s[curr..], n);
    if curr + n < |s| {
      assert s[curr..][n + 1..] == s[curr + n + 1..];
    } else {
      assert s[curr..] == s[curr..curr + n];
    }
  }

  lemma FlatPrefix(lines: seq<string>, l: nat)
    requires l <= |lines|
    ensures l == 0 ==> Flat(lines[..l]) == ""
    ensures l < |lines| ==> Flat(lines[..l + 1]) == Flat(lines[..l]) + (lines[l] + [EOL])
  {
    if l < |lines| {
      FlatAppend(lines[..l], lines[l]);
      assert lines[..l + 1] == lines[..l] + [lines[l]];
    }
  }

  lemma {:induction false} FlatShorter(lines: seq<string>, l: nat)
    requires l <= |lines|
    ensures |Flat(lines[..l])| <= |Flat(lines)|
  {
    if l > 0 {
      assert lines[..l][1..] == lines[1..][..l - 1];
      FlatShorter(lines[1..], l - 1);
    }
  }

  const PAIRS := "()[]{}<>"
  const BUDDIES := ")(][}{><"

  function Weight(c: char, it: char, buddy: char): int {
    if c == it then 1 else if c == buddy then -1 else 0
  }

  // How many more it than buddy from p up to r.
  function Balance(flat: string, it: char, buddy: char, p: nat, r: nat): int
    requires p <= r <= |flat|
  {
    if p == r then 0
    else Balance(flat, it, buddy, p, r - 1) + Weight(flat[r - 1], it, buddy)
  }

  // The buddy at q is where as many buddies as its have been seen for the first time.
  ghost predicate IsMatch(flat: string, it: char, buddy: char, p: nat, q: nat) {
    && p < q < |flat| && flat[q] == buddy && Balance(flat, it, buddy, p, q + 1) == 0
    && (forall r :: p < r <= q ==> Balance(flat, it, buddy, p, r) > 0)
  }

  // The same in counters of eight bits.
  predicate SeemsMatched(flat: string, it: char, buddy: char, p: nat, q: nat) {
    p <= q < |flat| && flat[q] == buddy && Balance(flat, it, buddy, p, q + 1) % 256 == 0
  }

  ghost predicate IsFirstSeeming(flat: string, it: char, buddy: char, p: nat, q: nat) {
    SeemsMatched(flat, it, buddy, p, q) && forall r :: p <= r < q ==> !SeemsMatched(flat, it, buddy, p, r)
  }

  // The brackets between p and its match never nest deeper than 256.
  ghost predicate Shallow(flat: string, it: char, buddy: char, p: nat, q: nat)
    requires q <= |flat|
  {
    forall r :: p <= r <= q ==> Balance(flat, it, buddy, p, r) <= 256
  }

  // From above 256 down to 256 there is a buddy that makes it so.
  lemma {:induction false} StepsDown(flat: string, it: char, buddy: char, p: nat, r: nat, q: nat) returns (s: nat)
    requires p <= r <= q <= |flat| && it != buddy
    requires Balance(flat, it, buddy, p, r) > 256 >= Balance(flat, it, buddy, p, q)
    ensures r <= s < q && SeemsMatched(flat, it, buddy, p, s)
    decreases q - r
  {
    if Balance(flat, it, buddy, p, r + 1) > 256 {
      s := StepsDown(flat, it, buddy, p, r + 1, q);
    } else {
      s := r;
    }
  }

  lemma NotBefore(flat: string, it: char, buddy: char, p: nat, q: nat, r: nat)
    requires it != buddy && IsMatch(flat, it, buddy, p, q) && Shallow(flat, it, buddy, p, q) && p <= r < q
    ensures !SeemsMatched(flat, it, buddy, p, r)
  {
    assert Balance(flat, it, buddy, p, r + 1) > 0;
    assert Balance(flat, it, buddy, p, r) <= 256;
  }

  // What the eight-bit search finds is the match just when the nesting is no deeper than 256.
  lemma MatchFoundIff(flat: string, it: char, buddy: char, p: nat, q: nat, found: nat)
    requires it != buddy && IsMatch(flat, it, buddy, p, q) && IsFirstSeeming(flat, it, buddy, p, found)
    ensures found == q <==> Shallow(flat, it, buddy, p, q)
  {
    assert SeemsMatched(flat, it, buddy, p, q) && Balance(flat, it, buddy, p, q) == 1;
    if Shallow(flat, it, buddy, p, q) {
      if found < q { NotBefore(flat, it, buddy, p, q, found); }
    } else {
      var r :| p <= r <= q && Balance(flat, it, buddy, p, r) > 256;
      var s := StepsDown(flat, it, buddy, p, r, q);
    }
  }

  // How many times 256 brackets are open between p and r, beside one more at least.
  function Level(flat: string, it: char, buddy: char, p: nat, r: nat): int
    requires p <= r <= |flat|
  {
    (Balance(flat, it, buddy, p, r) - 1) / 256
  }

  // It never goes down.
  ghost predicate LevelsRise(flat: string, it: char, buddy: char, p: nat)
    requires p <= |flat|
  {
    forall r, s :: p < r <= s <= |flat| ==> Level(flat, it, buddy, p, r) <= Level(flat, it, buddy, p, s)
  }

  // A bracket without match leaves the search without one.
  ghost predicate Unmatched(flat: string, it: char, buddy: char, p: nat) {
    p < |flat| && flat[p] == it && forall q :: p < q < |flat| ==> !IsMatch(flat, it, buddy, p, q)
  }

  // Then more of it than of buddy have been seen everywhere.
  lemma {:induction false} StaysOpen(flat: string, it: char, buddy: char, p: nat, r: nat)
    requires it != buddy && Unmatched(flat, it, buddy, p) && p < r <= |flat|
    ensures forall i :: p < i <= r ==> Balance(flat, it, buddy, p, i) > 0
  {
    if r == p + 1 {
      assert Balance(flat, it, buddy, p, p) == 0;
    } else {
      StaysOpen(flat, it, buddy, p, r - 1);
      assert !IsMatch(flat, it, buddy, p, r - 1);
    }
  }

  // The eight-bit counters agree just where the level goes down.
  lemma SeemsIffDown(flat: string, it: char, buddy: char, p: nat, r: nat)
    requires it != buddy && p < r < |flat|
    ensures SeemsMatched(flat, it, buddy, p, r) <==>
      Level(flat, it, buddy, p, r + 1) < Level(flat, it, buddy, p, r)
  {
    var b := Balance(flat, it, buddy, p, r);
    assert Balance(flat, it, buddy, p, r + 1) == b + Weight(flat[r], it, buddy);
    StepLevel(b);
  }

  lemma StepLevel(b: int)
    ensures (b - 1 - 1) / 256 < (b - 1) / 256 <==> (b - 1) % 256 == 0
    ensures (b - 1) / 256 <= b / 256
  {}

  lemma {:induction false} RisesStepwise(flat: string, it: char, buddy: char, p: nat, r: nat, s: nat)
    requires it != buddy && p < r <= s <= |flat|
    requires forall i :: p < i < |flat| ==> !SeemsMatched(flat, it, buddy, p, i)
    ensures Level(flat, it, buddy, p, r) <= Level(flat, it, buddy, p, s)
  {
    hide Level;
    if r < s {
      RisesStepwise(flat, it, buddy, p, r, s - 1);
      SeemsIffDown(flat, it, buddy, p, s - 1);
    }
  }

  // From a bracket without match the cursor rightly stays where it is if and only if the level
  // never goes down.
  lemma NoMatchIff(flat: string, it: char, buddy: char, p: nat)
    requires it != buddy && Unmatched(flat, it, buddy, p)
    ensures (forall r :: p <= r < |flat| ==> !SeemsMatched(flat, it, buddy, p, r)) <==> LevelsRise(flat, it, buddy, p)
  {
    hide Level, SeemsMatched;
    assert !SeemsMatched(flat, it, buddy, p, p) by { NotAtOnce(flat, it, buddy, p); }
    if forall r :: p <= r < |flat| ==> !SeemsMatched(flat, it, buddy, p, r) {
      forall r, s | p < r <= s <= |flat|
        ensures Level(flat, it, buddy, p, r) <= Level(flat, it, buddy, p, s)
      {
        RisesStepwise(flat, it, buddy, p, r, s);
      }
    } else {
      var r :| p < r < |flat| && SeemsMatched(flat, it, buddy, p, r);
      SeemsIffDown(flat, it, buddy, p, r);
    }
  }

  lemma NotAtOnce(flat: string, it: char, buddy: char, p: nat)
    requires p < |flat| && flat[p] == it != buddy
    ensures !SeemsMatched(flat, it, buddy, p, p)
  {}

  // In particular where the nesting stays within 256.
  lemma ShallowStays(flat: string, it: char, buddy: char, p: nat)
    requires it != buddy && Unmatched(flat, it, buddy, p) && Shallow(flat, it, buddy, p, |flat|)
    ensures LevelsRise(flat, it, buddy, p)
  {
    StaysOpen(flat, it, buddy, p, |flat|);
  }

  // n brackets open, then m are closed.
  function Nest(n: nat, m: nat): (s: string)
    ensures |s| == n + m && (forall i :: 0 <= i < n ==> s[i] == '(') && (forall i :: n <= i < n + m ==> s[i] == ')')
  {
    seq(n, _ => '(') + seq(m, _ => ')')
  }

  lemma {:induction false} NestBalance(n: nat, m: nat, r: nat)
    requires r <= n + m
    ensures Balance(Nest(n, m), '(', ')', 0, r) == if r <= n then r else 2 * n - r
  {
    if r > 0 { NestBalance(n, m, r - 1); }
  }

  lemma NestBalances(n: nat, m: nat)
    ensures forall r: nat :: r <= n + m ==>
      Balance(Nest(n, m), '(', ')', 0, r) == if r <= n then r else 2 * n - r
  {
    forall r: nat | r <= n + m
      ensures Balance(Nest(n, m), '(', ')', 0, r) == if r <= n then r else 2 * n - r
    {
      NestBalance(n, m, r);
    }
  }

  // 257 brackets deep, the search stops at the first closing one.
  lemma DeepMatchMissed()
    ensures IsMatch(Nest(257, 257), '(', ')', 0, 513) && IsFirstSeeming(Nest(257, 257), '(', ')', 0, 257)
  {
    hide Nest, Balance;
    NestBalances(257, 257);
  }

  // And so it does when there is no match at all.
  lemma DeepMatchInvented()
    ensures Unmatched(Nest(257, 1), '(', ')', 0) && IsFirstSeeming(Nest(257, 1), '(', ')', 0, 257)
  {
    hide Nest, Balance;
    NestBalances(257, 1);
  }
}
