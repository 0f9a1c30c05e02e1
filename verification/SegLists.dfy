/**
 The segregated free lists of mm.c: twenty doubly linked lists whose links are the first two
 payload words of the free blocks.  Word 0 holds the next block of the list and word 1 the
 previous one, whatever the source's macro names say; 0 is NULL.
 */
module SegLists {
  import opened Words
  import opened Blocks

  const LISTS := 20

  // ------------------------------------------------------------------ size classes

  /** The shift loop that selects a list: the list, and what is left of the size. */
  function Shift(size: int, list: int): (r: (int, int))
    decreases LISTS - list
  {
    if list < LISTS - 1 && size > 1 then Shift(size / 2, list + 1) else (list, size)
  }

  function Class(size: int): int {
    Shift(size, 0).0
  }

  function Rest(size: int): int {
    Shift(size, 0).1
  }

  function Pow2(n: int): (r: int)
    ensures r >= 1
    decreases n
  {
    if n <= 0 then 1 else 2 * Pow2(n - 1)
  }

  lemma {:induction false} ShiftMeaning(size: int, list: int)
    requires 1 <= size && 0 <= list < LISTS
    ensures var (c, rest) := Shift(size, list);
      && list <= c < LISTS && 1 <= rest
      && rest * Pow2(c - list) <= size < (rest + 1) * Pow2(c - list)
      && (c < LISTS - 1 ==> rest == 1)
    decreases LISTS - list
  {
    if list < LISTS - 1 && size > 1 {
      ShiftMeaning(size / 2, list + 1);
      var (c, rest) := Shift(size / 2, list + 1);
      var p := Pow2(c - list - 1);
      assert Pow2(c - list) == 2 * p;
      Doubled(size, rest, p);
    }
  }

  lemma Doubled(size: int, rest: int, p: int)
    requires rest * p <= size / 2 < (rest + 1) * p
    ensures rest * (2 * p) <= size < (rest + 1) * (2 * p)
  {
    var a, b := rest * p, (rest + 1) * p;
    assert rest * (2 * p) == 2 * a && (rest + 1) * (2 * p) == 2 * b;
  }

  /** The class is the integer logarithm of the size, capped at the last list. */
  lemma ClassIsLog(size: int)
    requires 1 <= size
    ensures var c := Class(size);
      0 <= c < LISTS && Pow2(c) <= size && (c < LISTS - 1 ==> size < Pow2(c + 1))
  {
    ShiftMeaning(size, 0);
    var (c, rest) := Shift(size, 0);
    assert rest * Pow2(c) >= Pow2(c) by {
      Scaled(rest, Pow2(c));
    }
    assert Pow2(c + 1) == 2 * Pow2(c);
  }

  lemma Scaled(k: int, p: int)
    requires 1 <= k && 1 <= p
    ensures p <= k * p && k <= k * p
  {
  }

  lemma {:induction false} Pow2Monotone(a: int, b: int)
    requires 0 <= a <= b
    ensures Pow2(a) <= Pow2(b)
    decreases b
  {
    if a < b {
      Pow2Monotone(a, b - 1);
    }
  }

  lemma ClassMonotone(x: int, y: int)
    requires 1 <= x <= y
    ensures Class(x) <= Class(y)
  {
    hide Class, Pow2;
    ClassIsLog(x);
    ClassIsLog(y);
    if Class(y) < Class(x) {
      Pow2Monotone(Class(y) + 1, Class(x));
    }
  }

  /**
   In a heap of at most MAX_HEAP bytes the shifted size never exceeds the size of a block of
   the selected list, so the ordering loop stops at the list head.
   */
  lemma RestBelowClassmates(size: int, other: int)
    requires 1 <= size <= MAX_HEAP && MIN_BLOCK <= other && Class(other) == Class(size)
    ensures Rest(size) <= other
  {
    ShiftMeaning(size, 0);
    ShiftMeaning(other, 0);
    var (c, rest) := Shift(size, 0);
    if c == LISTS - 1 {
      assert Pow2(19) == 0x8_0000 by {
        assert Pow2(5) == 32 && Pow2(10) == 1024 && Pow2(15) == 32768;
      }
      assert rest <= 40;
      ClassIsLog(other);
    }
  }

  // ------------------------------------------------------------------ one list

  /** Element k, 0 outside the list. */
  function Elem(s: seq<int>, k: int): int {
    if 0 <= k < |s| then s[k] else 0
  }

  /** The addresses of s are payloads in m, and each element's two words name its neighbours. */
  ghost predicate Linked(m: seq<byte>, s: seq<int>) {
    forall k | 0 <= k < |s| :: LinkedAt(m, s, k)
  }

  ghost predicate LinkedAt(m: seq<byte>, s: seq<int>, k: int)
    requires 0 <= k < |s|
  {
    0 < s[k] && s[k] + 8 <= |m| && Word(m, s[k]) == Elem(s, k + 1) && Word(m, s[k] + 4) == Elem(s, k - 1)
  }

  ghost predicate Unique(s: seq<int>) {
    forall i, j | 0 <= i < j < |s| :: s[i] != s[j]
  }

  /** List l of the index: well linked, NULL-terminated, without repetition, all of one class. */
  ghost predicate ListOk(m: seq<byte>, head: int, s: seq<int>, free: map<int, int>, l: int) {
    && head == Elem(s, 0) && Linked(m, s) && Unique(s)
    && forall k | 0 <= k < |s| :: s[k] in free && Class(free[s[k]]) == l
  }

  /** Payloads in m, far enough apart for their link words not to overlap. */
  ghost predicate Spread(free: map<int, int>, n: int) {
    && (forall x | x in free :: 0 < x && x + 8 <= n && MIN_BLOCK <= free[x] <= MAX_HEAP)
    && forall x, y | x in free && y in free && x < y :: x + MIN_BLOCK <= y
  }

  /** The twenty lists together hold exactly the blocks in `free`, each in the list for its size. */
  ghost predicate Indexed(m: seq<byte>, heads: seq<int>, lists: seq<seq<int>>, free: map<int, int>) {
    && |heads| == |lists| == LISTS
    && (forall l | 0 <= l < LISTS :: ListOk(m, heads[l], lists[l], free, l))
    && (forall x | x in free :: 0 <= Class(free[x]) < LISTS && x in lists[Class(free[x])])
  }

  // ------------------------------------------------------------------ what the link writes do

  /** delete_block's writes, for next link n and previous link p. */
  function Unlinked(m: seq<byte>, n: int, p: int): (r: seq<byte>)
    requires 0 <= n && n + 8 <= |m| && 0 <= p && p + 8 <= |m| && n < WORD_LIMIT && p < WORD_LIMIT
    ensures |r| == |m|
  {
    var m1 := if n != 0 then PutWord(m, n + 4, p) else m;
    if p != 0 then PutWord(m1, p, n) else m1
  }

  /** insert_block's writes for block x between i, before, and s, after. */
  function LinkedIn(m: seq<byte>, x: int, s: int, i: int): (r: seq<byte>)
    requires 0 <= x && x + 8 <= |m| && 0 <= s && s + 8 <= |m| && 0 <= i && i + 8 <= |m| <= WORD_LIMIT
    ensures |r| == |m|
  {
    var m1 := PutWord(m, x, s);
    var m2 := if s != 0 then PutWord(m1, s + 4, x) else m1;
    var m3 := PutWord(m2, x + 4, i);
    if i != 0 then PutWord(m3, i, x) else m3
  }

  function InsertAt(s: seq<int>, k: int, x: int): seq<int>
    requires 0 <= k <= |s|
  {
    s[..k] + [x] + s[k..]
  }

  function RemoveAt(s: seq<int>, k: int): seq<int>
    requires 0 <= k < |s|
  {
    s[..k] + s[k + 1..]
  }

  ghost predicate LinksKept(m: seq<byte>, r: seq<byte>, x: int) {
    |r| == |m| && (0 <= x && x + 8 <= |m| ==> Word(r, x) == Word(m, x) && Word(r, x + 4) == Word(m, x + 4))
  }

  /** A list whose link words are untouched stays as it is. */
  lemma ListKept(m: seq<byte>, r: seq<byte>, head: int, s: seq<int>, free: map<int, int>, more: map<int, int>, l: int)
    requires ListOk(m, head, s, free, l) && |r| == |m|
    requires forall k | 0 <= k < |s| :: s[k] in more && more[s[k]] == free[s[k]]
    requires forall k | 0 <= k < |s| :: LinksKept(m, r, s[k])
    ensures ListOk(r, head, s, more, l)
  {
    forall k | 0 <= k < |s| ensures LinkedAt(r, s, k) {
      assert LinkedAt(m, s, k);
    }
  }

  /** Blocks at y and z whose link words do not overlap, or NULL, or the same block. */
  ghost predicate Clear(y: int, z: int) {
    z == 0 || y == z || y + MIN_BLOCK <= z || z + MIN_BLOCK <= y
  }

  lemma UnlinkedAt(m: seq<byte>, n: int, p: int, y: int)
    requires 0 <= n && n + 8 <= |m| && 0 <= p && p + 8 <= |m| <= WORD_LIMIT
    requires 0 < y && y + 8 <= |m| && Clear(y, n) && Clear(y, p) && (n == 0 || Clear(n, p)) && (n == p ==> n == 0)
    ensures var r := Unlinked(m, n, p);
      && Word(r, y) == (if y == p then n else Word(m, y))
      && Word(r, y + 4) == (if y == n then p else Word(m, y + 4))
  {
    hide Word, PutWord;
  }

  lemma LinkedInAt(m: seq<byte>, x: int, s: int, i: int, y: int)
    requires 0 < x && x + 8 <= |m| && 0 <= s && s + 8 <= |m| && 0 <= i && i + 8 <= |m| <= WORD_LIMIT
    requires 0 < y && y + 8 <= |m| && Clear(y, x) && Clear(y, s) && Clear(y, i)
    requires Clear(x, s) && Clear(x, i) && x != s && x != i
    ensures var r := LinkedIn(m, x, s, i);
      && Word(r, y) == (if y == x then s else if y == i then x else Word(m, y))
      && Word(r, y + 4) == (if y == x then i else if y == s then x else Word(m, y + 4))
  {
    hide Word, PutWord;
  }

  /** Two elements, or an element and NULL. */
  lemma ElemsClear(s: seq<int>, free: map<int, int>, n: int, i: int, j: int)
    requires Spread(free, n) && forall k | 0 <= k < |s| :: s[k] in free
    requires 0 <= i < |s|
    ensures 0 < s[i] && s[i] + 8 <= n && 0 <= Elem(s, j) && Elem(s, j) + 8 <= n && Clear(s[i], Elem(s, j))
  {
    assert s[i] in free;
    if 0 <= j < |s| {
      assert s[j] in free;
    }
  }

  /** One element after a deletion. */
  lemma DeleteElem(m: seq<byte>, s: seq<int>, free: map<int, int>, k: int, j: int)
    requires Linked(m, s) && Unique(s) && Spread(free, |m|) && |m| <= WORD_LIMIT && 0 <= k < |s|
    requires (forall i | 0 <= i < |s| :: s[i] in free) && 0 <= j < |s| - 1
    ensures var n, p, t := Elem(s, k + 1), Elem(s, k - 1), RemoveAt(s, k);
      0 <= n && n + 8 <= |m| && 0 <= p && p + 8 <= |m| && LinkedAt(Unlinked(m, n, p), t, j)
  {
    hide Word, PutWord, Unlinked, Spread;
    var n, p, t := Elem(s, k + 1), Elem(s, k - 1), RemoveAt(s, k);
    var i := if j < k then j else j + 1;
    ElemsClear(s, free, |m|, k, k + 1);
    ElemsClear(s, free, |m|, k, k - 1);
    if k + 1 < |s| {
      ElemsClear(s, free, |m|, k + 1, k - 1);
    }
    ElemsClear(s, free, |m|, i, k + 1);
    ElemsClear(s, free, |m|, i, k - 1);
    assert t[j] == s[i];
    assert n == 0 || Clear(n, p);
    assert LinkedAt(m, s, i);
    UnlinkedAt(m, n, p, s[i]);
  }

  lemma DeleteFromList(m: seq<byte>, head: int, s: seq<int>, free: map<int, int>, l: int, k: int)
    requires ListOk(m, head, s, free, l) && Spread(free, |m|) && |m| <= WORD_LIMIT && 0 <= k < |s|
    ensures var n, p := Elem(s, k + 1), Elem(s, k - 1);
      && 0 <= n && n + 8 <= |m| && 0 <= p && p + 8 <= |m|
      && ListOk(Unlinked(m, n, p), if p == 0 then n else head, RemoveAt(s, k), free - {s[k]}, l)
  {
    hide Word, PutWord, Unlinked, Class, Spread;
    var t := RemoveAt(s, k);
    ElemsClear(s, free, |m|, k, k + 1);
    ElemsClear(s, free, |m|, k, k - 1);
    var r := Unlinked(m, Elem(s, k + 1), Elem(s, k - 1));
    forall j | 0 <= j < |t| ensures LinkedAt(r, t, j) {
      DeleteElem(m, s, free, k, j);
    }
    forall j | 0 <= j < |t| ensures t[j] in free && t[j] != s[k] && Class(free[t[j]]) == l {
      assert t[j] == s[if j < k then j else j + 1];
    }
    if k > 0 {
      ElemsClear(s, free, |m|, k - 1, k);
    }
  }

  /** One element after an insertion. */
  lemma InsertElem(m: seq<byte>, s: seq<int>, more: map<int, int>, k: int, x: int, j: int)
    requires Linked(m, s) && Unique(s) && Spread(more, |m|) && |m| <= WORD_LIMIT && 0 <= k <= |s| && x !in s
    requires (forall i | 0 <= i < |s| :: s[i] in more) && x in more && 0 <= j <= |s|
    ensures var n, p, t := Elem(s, k), Elem(s, k - 1), InsertAt(s, k, x);
      && 0 < x && x + 8 <= |m| && 0 <= n && n + 8 <= |m| && 0 <= p && p + 8 <= |m|
      && LinkedAt(LinkedIn(m, x, n, p), t, j)
  {
    hide Word, PutWord, LinkedIn, Spread;
    var n, p, t := Elem(s, k), Elem(s, k - 1), InsertAt(s, k, x);
    ElemsClear(t, more, |m|, k, k + 1);
    ElemsClear(t, more, |m|, k, k - 1);
    ElemsClear(t, more, |m|, j, k);
    ElemsClear(t, more, |m|, j, k + 1);
    ElemsClear(t, more, |m|, j, k - 1);
    assert n == Elem(t, k + 1) && p == Elem(t, k - 1) && t[k] == x;
    LinkedInAt(m, x, n, p, t[j]);
    if j != k {
      var i := if j < k then j else j - 1;
      assert t[j] == s[i];
      assert LinkedAt(m, s, i);
    }
  }

  lemma InsertIntoList(m: seq<byte>, head: int, s: seq<int>, free: map<int, int>, l: int, k: int, x: int, size: int)
    requires ListOk(m, head, s, free, l) && x !in free && Spread(free[x := size], |m|) && |m| <= WORD_LIMIT
    requires 0 <= k <= |s| && Class(size) == l
    ensures var n, p := Elem(s, k), Elem(s, k - 1);
      && 0 <= x && x + 8 <= |m| && 0 <= n && n + 8 <= |m| && 0 <= p && p + 8 <= |m|
      && ListOk(LinkedIn(m, x, n, p), if p == 0 then x else head, InsertAt(s, k, x), free[x := size], l)
  {
    hide Word, PutWord, LinkedIn, Class, Spread;
    var n, p, more, t := Elem(s, k), Elem(s, k - 1), free[x := size], InsertAt(s, k, x);
    InsertElem(m, s, more, k, x, k);
    var r := LinkedIn(m, x, n, p);
    forall j | 0 <= j < |t| ensures LinkedAt(r, t, j) {
      InsertElem(m, s, more, k, x, j);
    }
    forall j | 0 <= j < |t| ensures t[j] in more && Class(more[t[j]]) == l && (j != k ==> t[j] != x) {
      if j != k {
        assert t[j] == s[if j < k then j else j - 1];
      }
    }
    if k > 0 {
      InsertElem(m, s, more, k, x, k - 1);
    }
  }

  // ------------------------------------------------------------------ the whole index

  /** An indexed block is at some position of the list for its size. */
  lemma Position(m: seq<byte>, heads: seq<int>, lists: seq<seq<int>>, free: map<int, int>, x: int) returns (k: nat)
    requires Indexed(m, heads, lists, free) && x in free
    ensures var s := lists[Class(free[x])]; k < |s| && s[k] == x
  {
    k :| 0 <= k < |lists[Class(free[x])]| && lists[Class(free[x])][k] == x;
  }

  /** delete_block's writes take exactly one block out of the index. */
  lemma DeleteFromIndex(m: seq<byte>, heads: seq<int>, lists: seq<seq<int>>, free: map<int, int>, x: int, k: int)
    requires Indexed(m, heads, lists, free) && Spread(free, |m|) && |m| <= WORD_LIMIT
    requires x in free && 0 <= k < |lists[Class(free[x])]| && lists[Class(free[x])][k] == x
    ensures var c := Class(free[x]); var s := lists[c]; var n, p := Elem(s, k + 1), Elem(s, k - 1);
      && 0 <= n && n + 8 <= |m| && 0 <= p && p + 8 <= |m|
      && Indexed(Unlinked(m, n, p), if p == 0 then heads[c := n] else heads, lists[c := RemoveAt(s, k)], free - {x})
  {
    hide Word, PutWord, Unlinked, Class, Spread, ListOk, Linked;
    var c := Class(free[x]);
    var s := lists[c];
    var n, p := Elem(s, k + 1), Elem(s, k - 1);
    assert ListOk(m, heads[c], s, free, c);
    DeleteFromList(m, heads[c], s, free, c, k);
    var r, less := Unlinked(m, n, p), free - {x};
    forall l | 0 <= l < LISTS && l != c ensures ListOk(r, heads[l], lists[l], less, l) {
      assert ListOk(m, heads[l], lists[l], free, l);
      OtherListDeleted(m, heads[c], s, heads[l], lists[l], free, c, l, k);
    }
    forall y | y in less ensures y in (lists[c := RemoveAt(s, k)])[Class(free[y])] {
      if Class(free[y]) == c {
        var i := Position(m, heads, lists, free, y);
        var t := RemoveAt(s, k);
        assert t[if i < k then i else i - 1] == y;
      }
    }
  }

  lemma OtherListDeleted(m: seq<byte>, head: int, s: seq<int>, other: int, t: seq<int>, free: map<int, int>, c: int, l: int, k: int)
    requires ListOk(m, head, s, free, c) && ListOk(m, other, t, free, l) && l != c
    requires Spread(free, |m|) && |m| <= WORD_LIMIT && 0 <= k < |s|
    requires var n, p := Elem(s, k + 1), Elem(s, k - 1); 0 <= n && n + 8 <= |m| && 0 <= p && p + 8 <= |m|
    ensures ListOk(Unlinked(m, Elem(s, k + 1), Elem(s, k - 1)), other, t, free - {s[k]}, l)
  {
    hide Word, PutWord, Unlinked, Spread, Class;
    var n, p := Elem(s, k + 1), Elem(s, k - 1);
    var r := Unlinked(m, n, p);
    forall j | 0 <= j < |t| ensures LinksKept(m, r, t[j]) {
      StrangersClear(s, t[j], free, |m|, k + 1);
      StrangersClear(s, t[j], free, |m|, k - 1);
      if n != 0 {
        ElemsClear(s, free, |m|, k + 1, k - 1);
      }
      UnlinkedAt(m, n, p, t[j]);
    }
    ListKept(m, r, other, t, free, free - {s[k]}, l);
  }

  /** A block that is not in the list, and an element of the list or NULL. */
  lemma StrangersClear(s: seq<int>, y: int, free: map<int, int>, n: int, j: int)
    requires Spread(free, n) && (forall k | 0 <= k < |s| :: s[k] in free) && y in free && y !in s
    ensures 0 < y && y + 8 <= n && Clear(y, Elem(s, j)) && y != Elem(s, j)
  {
    if 0 <= j < |s| {
      assert s[j] in free && s[j] in s;
    }
  }

  /** insert_block's writes put exactly one block into the index. */
  lemma InsertIntoIndex(m: seq<byte>, heads: seq<int>, lists: seq<seq<int>>, free: map<int, int>, x: int, size: int, k: int)
    requires Indexed(m, heads, lists, free) && x !in free && Spread(free[x := size], |m|) && |m| <= WORD_LIMIT
    requires 0 <= Class(size) < LISTS && 0 <= k <= |lists[Class(size)]|
    ensures var c := Class(size); var s := lists[c]; var n, p := Elem(s, k), Elem(s, k - 1);
      && 0 <= x && x + 8 <= |m| && 0 <= n && n + 8 <= |m| && 0 <= p && p + 8 <= |m|
      && Indexed(LinkedIn(m, x, n, p), if p == 0 then heads[c := x] else heads, lists[c := InsertAt(s, k, x)], free[x := size])
  {
    hide Word, PutWord, LinkedIn, Class, Spread, ListOk, Linked;
    var c := Class(size);
    var s := lists[c];
    var n, p := Elem(s, k), Elem(s, k - 1);
    assert ListOk(m, heads[c], s, free, c);
    InsertIntoList(m, heads[c], s, free, c, k, x, size);
    var r, more, t := LinkedIn(m, x, n, p), free[x := size], InsertAt(s, k, x);
    forall l | 0 <= l < LISTS && l != c ensures ListOk(r, heads[l], lists[l], more, l) {
      assert ListOk(m, heads[l], lists[l], free, l);
      OtherListInserted(m, heads[c], s, heads[l], lists[l], free, c, l, k, x, size);
    }
    forall y | y in more ensures y in (lists[c := t])[Class(more[y])] {
      if y == x {
        assert t[k] == x;
      } else if Class(free[y]) == c {
        var i := Position(m, heads, lists, free, y);
        assert t[if i < k then i else i + 1] == y;
      }
    }
  }

  lemma OtherListInserted(m: seq<byte>, head: int, s: seq<int>, other: int, t: seq<int>, free: map<int, int>, c: int, l: int, k: int, x: int, size: int)
    requires ListOk(m, head, s, free, c) && ListOk(m, other, t, free, l) && l != c && x !in free
    requires Spread(free[x := size], |m|) && |m| <= WORD_LIMIT && 0 <= k <= |s|
    requires var n, p := Elem(s, k), Elem(s, k - 1); 0 <= x && x + 8 <= |m| && 0 <= n && n + 8 <= |m| && 0 <= p && p + 8 <= |m|
    ensures ListOk(LinkedIn(m, x, Elem(s, k), Elem(s, k - 1)), other, t, free[x := size], l)
  {
    hide Word, PutWord, LinkedIn, Spread, Class;
    var n, p, more := Elem(s, k), Elem(s, k - 1), free[x := size];
    var r := LinkedIn(m, x, n, p);
    assert x !in s;
    forall j | 0 <= j < |t| ensures LinksKept(m, r, t[j]) {
      StrangersClear(s, t[j], more, |m|, k);
      StrangersClear(s, t[j], more, |m|, k - 1);
      StrangersClear(s, x, more, |m|, k);
      StrangersClear(s, x, more, |m|, k - 1);
      StrangersClear([x], t[j], more, |m|, 0);
      LinkedInAt(m, x, n, p, t[j]);
    }
    ListKept(m, r, other, t, free, more, l);
  }

  /** Writes away from every indexed block's link words leave the index alone. */
  lemma IndexFrame(m: seq<byte>, r: seq<byte>, heads: seq<int>, lists: seq<seq<int>>, free: map<int, int>, lo: int, hi: int)
    requires Indexed(m, heads, lists, free) && SameOutside(m, r, lo, hi)
    requires forall x | x in free :: 0 <= x && x + 8 <= |m| && (x + 8 <= lo || hi <= x)
    ensures Indexed(r, heads, lists, free)
  {
    hide Class, Linked;
    forall l | 0 <= l < LISTS ensures ListOk(r, heads[l], lists[l], free, l) {
      assert ListOk(m, heads[l], lists[l], free, l);
      forall k | 0 <= k < |lists[l]| ensures LinksKept(m, r, lists[l][k]) {
        assert lists[l][k] in free;
        WordFrame(m, r, lo, hi, lists[l][k]);
        WordFrame(m, r, lo, hi, lists[l][k] + 4);
      }
      ListKept(m, r, heads[l], lists[l], free, free, l);
    }
  }

  // ------------------------------------------------------------------ what the operations do to the lists

  function NoLists(): seq<seq<int>> {
    seq(LISTS, _ => [])
  }

  /** The list without the first occurrence of x. */
  function Without(s: seq<int>, x: int): seq<int> {
    if s == [] then [] else if s[0] == x then s[1..] else [s[0]] + Without(s[1..], x)
  }

  lemma {:induction false} RemovedIsWithout(s: seq<int>, k: int)
    requires Unique(s) && 0 <= k < |s|
    ensures RemoveAt(s, k) == Without(s, s[k])
    decreases s
  {
    if k > 0 {
      var rest := s[1..];
      assert s[0] != s[k];
      assert Unique(rest);
      hide Unique;
      RemovedIsWithout(rest, k - 1);
      assert RemoveAt(s, k) == [s[0]] + RemoveAt(rest, k - 1);
    }
  }

  /** insert_block: the block goes to the front of the list for its size. */
  function Listed(lists: seq<seq<int>>, x: int, size: int): (r: seq<seq<int>>)
    ensures |r| == |lists|
  {
    var c := Class(size);
    if 0 <= c < |lists| then lists[c := [x] + lists[c]] else lists
  }

  /** delete_block. */
  function Unlisted(lists: seq<seq<int>>, x: int, size: int): (r: seq<seq<int>>)
    ensures |r| == |lists|
  {
    var c := Class(size);
    if 0 <= c < |lists| then lists[c := Without(lists[c], x)] else lists
  }

  function PlaceLists(lists: seq<seq<int>>, bs: seq<Block>, i: int, asize: int): seq<seq<int>>
    requires 0 <= i < |bs|
  {
    var less, rest := Unlisted(lists, Off(bs, i), bs[i].size), bs[i].size - asize;
    if rest >= MIN_BLOCK then Listed(less, Off(bs, i) + asize, rest) else less
  }

  /** The lists without the free neighbours of block i. */
  function UnlistedBeside(lists: seq<seq<int>>, bs: seq<Block>, i: int): seq<seq<int>>
    requires 0 <= i < |bs|
  {
    var less := if MergeLo(bs, i) < i then Unlisted(lists, Off(bs, i - 1), bs[i - 1].size) else lists;
    if MergeHi(bs, i) > i + 1 then Unlisted(less, Off(bs, i + 1), bs[i + 1].size) else less
  }

  function CoalesceLists(lists: seq<seq<int>>, bs: seq<Block>, i: int): seq<seq<int>>
    requires 0 <= i < |bs|
  {
    var lo, hi := MergeLo(bs, i), MergeHi(bs, i);
    if lo == i && hi == i + 1 then lists
    else Listed(UnlistedBeside(Unlisted(lists, Off(bs, i), bs[i].size), bs, i), Off(bs, lo), Off(bs, hi) - Off(bs, lo))
  }

  function ReleaseLists(lists: seq<seq<int>>, bs: seq<Block>, q: int): seq<seq<int>> {
    var i := Index(bs, FIRST_BP, q);
    if i < |bs| then CoalesceLists(Listed(lists, q, bs[i].size), bs[i := Block(bs[i].size, false)], i) else lists
  }

  function ExtendLists(lists: seq<seq<int>>, bs: seq<Block>, size: int): seq<seq<int>> {
    CoalesceLists(Listed(lists, HeapSize(bs), size), bs + [Block(size, false)], |bs|)
  }

  // ------------------------------------------------------------------ the order of a list

  ghost predicate NoLarger(free: map<int, int>, x: int, y: int) {
    x in free && y in free && free[x] <= free[y]
  }

  /** The order the source's comment promises: sizes ascend along the list. */
  ghost predicate SizesAscend(s: seq<int>, free: map<int, int>) {
    forall i, j | 0 <= i < j < |s| :: NoLarger(free, s[i], s[j])
  }

  /** An insertion keeps the order exactly when the new block is no larger than the list's first. */
  lemma InsertAscends(s: seq<int>, free: map<int, int>, x: int, size: int)
    requires x !in s && forall k | 0 <= k < |s| :: s[k] in free
    ensures SizesAscend([x] + s, free[x := size]) <==> SizesAscend(s, free) && (s != [] ==> size <= free[s[0]])
  {
    var t, more := [x] + s, free[x := size];
    if SizesAscend(t, more) {
      assert s != [] ==> NoLarger(more, t[0], t[1]);
      forall i, j | 0 <= i < j < |s| ensures NoLarger(free, s[i], s[j]) {
        assert NoLarger(more, t[i + 1], t[j + 1]);
      }
    } else {
      var i, j :| 0 <= i < j < |t| && !NoLarger(more, t[i], t[j]);
      assert t[j] == s[j - 1];
      if i > 0 {
        assert !NoLarger(free, s[i - 1], s[j - 1]);
      } else if j > 1 {
        assert size <= free[s[0]] ==> !NoLarger(free, s[0], s[j - 1]);
      }
    }
  }

  /** A removal never disturbs the order. */
  lemma RemoveAscends(s: seq<int>, free: map<int, int>, k: int)
    requires SizesAscend(s, free) && Unique(s) && 0 <= k < |s|
    ensures SizesAscend(RemoveAt(s, k), free - {s[k]})
  {
    var t := RemoveAt(s, k);
    forall i, j | 0 <= i < j < |t| ensures NoLarger(free - {s[k]}, t[i], t[j]) {
      var i', j' := if i < k then i else i + 1, if j < k then j else j + 1;
      assert NoLarger(free, s[i'], s[j']);
      assert t[i] == s[i'] && t[j] == s[j'];
    }
  }

  /** Where the ordering loop would stop if it compared the size before shifting it, the order is kept. */
  lemma UnshiftedAscends(s: seq<int>, free: map<int, int>, x: int, size: int, k: int)
    requires SizesAscend(s, free) && x !in s && 0 <= k <= |s| && forall j | 0 <= j < |s| :: s[j] in free
    requires (forall j | 0 <= j < k :: free[s[j]] < size) && (k < |s| ==> size <= free[s[k]])
    ensures SizesAscend(InsertAt(s, k, x), free[x := size])
  {
    var t, more := InsertAt(s, k, x), free[x := size];
    forall i, j | 0 <= i < j < |t| ensures NoLarger(more, t[i], t[j]) {
      var i', j' := if i < k then i else i - 1, if j < k then j else j - 1;
      assert i != k ==> t[i] == s[i'];
      assert j != k ==> t[j] == s[j'];
      if i == k {
        assert k < j' ==> NoLarger(free, s[k], s[j']);
      } else if j != k {
        assert NoLarger(free, s[i'], s[j']);
      }
    }
  }

  // ------------------------------------------------------------------ what an index means

  predicate OnList(lists: seq<seq<int>>, l: int, k: int, x: int) {
    0 <= l < |lists| && 0 <= k < |lists[l]| && lists[l][k] == x
  }

  /** The lists together hold exactly the given blocks, each in one place, in the list for its size. */
  lemma IndexExact(m: seq<byte>, heads: seq<int>, lists: seq<seq<int>>, free: map<int, int>)
    requires Indexed(m, heads, lists, free)
    ensures forall x :: x in free <==> exists l, k :: OnList(lists, l, k, x)
    ensures forall l, k, x | OnList(lists, l, k, x) :: x in free && l == Class(free[x])
    ensures forall l, k, l', k', x | OnList(lists, l, k, x) && OnList(lists, l', k', x) :: l == l' && k == k'
  {
    hide Class, Linked;
    forall l, k, x | OnList(lists, l, k, x) ensures x in free && l == Class(free[x]) && Unique(lists[l]) {
      assert ListOk(m, heads[l], lists[l], free, l);
    }
    forall x | x in free ensures exists l, k :: OnList(lists, l, k, x) {
      var k := Position(m, heads, lists, free, x);
      assert OnList(lists, Class(free[x]), k, x);
    }
  }

  /** NEXT_FREEP followed n times, stopping at NULL. */
  function Follow(m: seq<byte>, x: int, n: nat): int
    decreases n
  {
    if n == 0 || x <= 0 || x + 4 > |m| then x else Follow(m, Word(m, x), n - 1)
  }

  lemma {:induction false} FollowList(m: seq<byte>, s: seq<int>, i: int, n: nat)
    requires Linked(m, s) && 0 <= i && i + n <= |s|
    ensures Follow(m, Elem(s, i), n) == Elem(s, i + n)
    decreases n
  {
    if n > 0 {
      assert LinkedAt(m, s, i);
      FollowList(m, s, i + 1, n - 1);
    }
  }

  /** A walk from the head meets the elements in order and ends in NULL: no cycle. */
  lemma WalkEnds(m: seq<byte>, heads: seq<int>, lists: seq<seq<int>>, free: map<int, int>, l: int, n: nat)
    requires Indexed(m, heads, lists, free) && 0 <= l < LISTS && n <= |lists[l]|
    ensures Follow(m, heads[l], n) == if n < |lists[l]| then lists[l][n] else 0
  {
    assert ListOk(m, heads[l], lists[l], free, l);
    FollowList(m, lists[l], 0, n);
  }

  /** The next and previous links of every listed block undo each other. */
  lemma LinksInverse(m: seq<byte>, heads: seq<int>, lists: seq<seq<int>>, free: map<int, int>, x: int)
    requires Indexed(m, heads, lists, free) && x in free
    ensures 0 < x && x + 8 <= |m|
    ensures var n := Word(m, x); n != 0 ==> n + 8 <= |m| && Word(m, n + 4) == x
    ensures var p := Word(m, x + 4); p != 0 ==> p + 8 <= |m| && Word(m, p) == x
  {
    var l := Class(free[x]);
    var k := Position(m, heads, lists, free, x);
    assert ListOk(m, heads[l], lists[l], free, l);
    assert LinkedAt(m, lists[l], k);
    if k + 1 < |lists[l]| {
      assert LinkedAt(m, lists[l], k + 1);
    }
    if k > 0 {
      assert LinkedAt(m, lists[l], k - 1);
    }
  }
}
