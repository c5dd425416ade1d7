// lsh/utils.h, lsh/utils.c: the loops that open and close gaps in an array whose first n
// cells are in use.
module ArrayShift {

  // n cells in use, those from at up to at + len taken out.
  function Cut<T>(s: seq<T>, at: nat, len: nat): seq<T>
    requires at + len <= |s|
  {
    s[..at] + s[at + len..]
  }

  // The cells of x put in at a place.
  function Spliced<T>(s: seq<T>, at: nat, x: seq<T>): seq<T>
    requires at <= |s|
  {
    s[..at] + x + s[at..]
  }

  lemma CutUndoesSplice<T>(s: seq<T>, at: nat, x: seq<T>)
    requires at <= |s|
    ensures Cut(Spliced(s, at, x), at, |x|) == s
  {}

  lemma SpliceUndoesCut<T>(s: seq<T>, at: nat, len: nat)
    requires at + len <= |s|
    ensures Spliced(Cut(s, at, len), at, s[at..at + len]) == s
  {}

  // What the deleting loops leave after i rounds.
  ghost predicate Closing<T>(was: seq<T>, now: seq<T>, at: nat, len: nat, i: nat)
    requires at + i + len <= |was| == |now|
  {
    forall j :: 0 <= j < |now| ==> now[j] == was[if at <= j < at + i then j + len else j]
  }

  lemma ClosedUp<T>(was: seq<T>, now: seq<T>, n: nat, at: nat, len: nat)
    requires at + len <= n <= |was| == |now| && Closing(was, now, at, len, n - at - len)
    ensures now[..n - len] == Cut(was[..n], at, len) && now[n - len..] == was[n - len..]
  {}

  // type_arr_del
  method ArrDel<T>(arr: array<T>, n: nat, at: nat, len: nat) returns (newlen: nat)
    requires at + len <= n <= arr.Length
    modifies arr
    ensures newlen == n - len && arr[..newlen] == Cut(old(arr[..n]), at, len)
    ensures arr[newlen..] == old(arr[newlen..])
  {
    var copyLen := n - (at + 1) - (len - 1);
    for i := at to at + copyLen
      invariant Closing(old(arr[..]), arr[..], at, len, i - at)
    {
      arr[i] := arr[i + len];
    }
    newlen := n - len;
    hide Closing, Cut;
    ClosedUp(old(arr[..]), arr[..], n, at, len);
    assert arr[..newlen] == arr[..][..newlen] && arr[newlen..] == arr[..][newlen..];
  }

  // type_arr_del2: from cell m to cell k.
  method ArrDel2<T>(arr: array<T>, n: nat, m: nat, k: nat) returns (newlen: nat)
    requires m <= k < n <= arr.Length
    modifies arr
    ensures newlen == n - (k - m + 1) && arr[..newlen] == Cut(old(arr[..n]), m, k - m + 1)
    ensures arr[newlen..] == old(arr[newlen..])
  {
    var copyLen := n - (k + 1);
    for i := 0 to copyLen
      invariant Closing(old(arr[..]), arr[..], m, k - m + 1, i)
    {
      arr[m + i] := arr[k + 1 + i];
    }
    newlen := n - (k - m + 1);
    hide Closing, Cut;
    ClosedUp(old(arr[..]), arr[..], n, m, k - m + 1);
    assert arr[..newlen] == arr[..][..newlen] && arr[newlen..] == arr[..][newlen..];
  }

  // Of n cells, those behind cell at have moved on by len; the rest of the array is as it was.
  ghost predicate Opened<T>(was: seq<T>, now: seq<T>, n: nat, at: int, len: nat)
    requires -1 <= at < n && n + len <= |was| == |now|
  {
    && (forall j :: 0 <= j <= at ==> now[j] == was[j])
    && (forall j :: at < j < n ==> now[j + len] == was[j])
    && (forall j :: n + len <= j < |now| ==> now[j] == was[j])
  }

  // __type_arr_a: a gap of len cells behind cell at (before the first one if at is -1).
  method ArrOpen<T>(arr: array<T>, n: nat, at: int, len: nat) returns (newlen: nat)
    requires -1 <= at < n && n + len <= arr.Length
    modifies arr
    ensures newlen == n + len && Opened(old(arr[..]), arr[..], n, at, len)
  {
    var i := n - 1;
    while i > at
      invariant at <= i < n && Opened(old(arr[..]), arr[..], n, i, len)
    {
      arr[i + len] := arr[i];
      i := i - 1;
    }
    newlen := n + len;
  }

  // int_arr_a (also for pointers): the new cells are cleared.
  method ArrInsert<T>(arr: array<T>, n: nat, at: int, len: nat, zero: T) returns (newlen: nat)
    requires -1 <= at < n && n + len <= arr.Length
    modifies arr
    ensures newlen == n + len && Opened(old(arr[..]), arr[..], n, at, len)
    ensures forall j :: at < j <= at + len ==> arr[j] == zero
  {
    newlen := ArrOpen(arr, n, at, len);
    for i := 0 to len
      invariant Opened(old(arr[..]), arr[..], n, at, len)
      invariant forall j :: at < j <= at + i ==> arr[j] == zero
    {
      arr[at + 1 + i] := zero;
    }
  }

  // The cells from at on written over with x.
  function Overlaid<T>(s: seq<T>, at: nat, x: seq<T>): seq<T>
    requires at + |x| <= |s|
  {
    s[..at] + x + s[at + |x|..]
  }

  // strncpy of a text without NUL
  method Fill(arr: array<char>, at: nat, snippet: string)
    requires at + |snippet| <= arr.Length
    modifies arr
    ensures arr[..] == Overlaid(old(arr[..]), at, snippet)
  {
    for i := 0 to |snippet|
      invariant forall j :: 0 <= j < arr.Length ==> arr[j] == if at <= j < at + i then snippet[j - at] else old(arr[j])
    {
      arr[at + i] := snippet[i];
    }
  }

  lemma GapFilled<T>(was: seq<T>, gap: seq<T>, n: nat, at: int, x: seq<T>)
    requires -1 <= at < n && n + |x| <= |was| == |gap|
    requires Opened(was, gap, n, at, |x|)
    ensures
      var now := Overlaid(gap, at + 1, x);
      now[..n + |x|] == Spliced(was[..n], at + 1, x) && now[n + |x|..] == was[n + |x|..]
  {
    forall i | at + |x| < i < n + |x|
      ensures gap[i] == was[i - |x|]
    {
      assert gap[(i - |x|) + |x|] == was[i - |x|];
    }
  }

  // char_arr_a: the new cells take the snippet.
  method CharArrA(arr: array<char>, n: nat, at: int, snippet: string) returns (newlen: nat)
    requires -1 <= at < n && n + |snippet| <= arr.Length
    modifies arr
    ensures newlen == n + |snippet| && arr[..newlen] == Spliced(old(arr[..n]), at + 1, snippet)
    ensures arr[newlen..] == old(arr[newlen..])
  {
    hide Opened, Overlaid, Spliced;
    ghost var was := arr[..];
    newlen := ArrOpen(arr, n, at, |snippet|);
    GapFilled(was, arr[..], n, at, snippet);
    Fill(arr, at + 1, snippet);
    assert arr[..newlen] == arr[..][..newlen] && arr[newlen..] == arr[..][newlen..];
  }
}
