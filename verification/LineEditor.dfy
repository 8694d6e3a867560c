/** The debugger's line editor (dbg_getline of dbg.c). Characters are the values of the C type char. */
module LineEditor {
  import opened Arith

  const CAPACITY: nat := 255
  const NEWLINE: int := 10
  const ESCAPE: int := 27
  const SPACE: int := 32

  // ---------------------------------------------------------------- keys

  /** A key and where the input continues. */
  datatype Key = Key(code: int, next: nat)

  /** The key at input[i]. Three escape sequences become the codes 1, 2 and 3; an escape that is not
      one of them stands for the last character read. None: the input ends inside the key. */
  function KeyAt(input: seq<int>, i: nat): (k: Option<Key>)
    requires i < |input|
    ensures k.Some? ==> i < k.value.next <= |input|
  {
    if input[i] != ESCAPE then Some(Key(input[i], i + 1))
    else if i + 1 >= |input| then None
    else if input[i + 1] != '[' as int then Some(Key(input[i + 1], i + 2))
    else if i + 2 >= |input| then None
    else if input[i + 2] == 'C' as int then Some(Key(3, i + 3))
    else if input[i + 2] == 'D' as int then Some(Key(2, i + 3))
    else if input[i + 2] != '3' as int then Some(Key(input[i + 2], i + 3))
    else if i + 3 >= |input| then None
    else Some(Key(if input[i + 3] == '~' as int then 1 else input[i + 3], i + 4))
  }

  // ---------------------------------------------------------------- the simple editor

  /** A line as the text before and after the cursor. */
  datatype Line = Line(before: seq<int>, after: seq<int>)

  function Press(l: Line, c: int): Line
  {
    if c == 8 || c == 127 then
      if l.before == [] then l else l.(before := l.before[..|l.before| - 1])
    else if c == 1 then
      if l.after == [] then l else l.(after := l.after[1..])
    else if c == 2 then
      if l.before == [] then l
      else Line(l.before[..|l.before| - 1], [l.before[|l.before| - 1]] + l.after)
    else if c == 3 then
      if l.after == [] then l else Line(l.before + [l.after[0]], l.after[1..])
    else if c < SPACE || |l.before| + |l.after| >= CAPACITY then l
    else l.(before := l.before + [c])
  }

  /** The line when the newline arrives, or when the input so far is used up. */
  function Edited(l: Line, input: seq<int>, i: nat): Line
    requires i <= |input|
    decreases |input| - i
  {
    if i == |input| || input[i] == NEWLINE then l
    else
      var k := KeyAt(input, i);
      if k.None? then l else Edited(Press(l, k.value.code), input, k.value.next)
  }

  ghost predicate Proper(l: Line)
  {
    && |l.before| + |l.after| <= CAPACITY
    && (forall i :: 0 <= i < |l.before| ==> l.before[i] >= SPACE)
    && (forall i :: 0 <= i < |l.after| ==> l.after[i] >= SPACE)
  }

  lemma PressProper(l: Line, c: int)
    requires Proper(l)
    ensures Proper(Press(l, c))
  {
  }

  /** On every input the line stays within its capacity and holds no control character. */
  lemma {:induction false} EditedProper(l: Line, input: seq<int>, i: nat)
    requires i <= |input| && Proper(l)
    ensures Proper(Edited(l, input, i))
    decreases |input| - i
  {
    if i < |input| && input[i] != NEWLINE && KeyAt(input, i).Some? {
      var k := KeyAt(input, i).value;
      PressProper(l, k.code);
      EditedProper(Press(l, k.code), input, k.next);
    }
  }

  /** Cursor keys move over the text without changing it, and undo each other. */
  lemma CursorKeys(l: Line)
    ensures Press(l, 2).before + Press(l, 2).after == l.before + l.after
    ensures Press(l, 3).before + Press(l, 3).after == l.before + l.after
    ensures l.before != [] ==> Press(Press(l, 2), 3) == l
    ensures l.after != [] ==> Press(Press(l, 3), 2) == l
  {
    hide Press;
    CursorLeft(l);
    CursorRight(l);
  }

  lemma CursorLeft(l: Line)
    ensures Press(l, 2).before + Press(l, 2).after == l.before + l.after
    ensures l.before != [] ==> Press(Press(l, 2), 3) == l
  {
    if l.before != [] {
      var n := |l.before| - 1;
      var a, b := l.before[..n], [l.before[n]] + l.after;
      assert a + [l.before[n]] == l.before;
      assert b[1..] == l.after;
    }
  }

  lemma CursorRight(l: Line)
    ensures Press(l, 3).before + Press(l, 3).after == l.before + l.after
    ensures l.after != [] ==> Press(Press(l, 3), 2) == l
  {
    if l.after != [] {
      var a := l.before + [l.after[0]];
      assert [l.after[0]] + l.after[1..] == l.after;
      assert a[..|l.before|] == l.before;
    }
  }

  /** A typed character is taken back by backspace, or by cursor left and delete. */
  lemma TypeAndErase(l: Line, c: int)
    requires c >= SPACE && c != 127 && |l.before| + |l.after| < CAPACITY
    ensures Press(Press(l, c), 8) == l && Press(Press(Press(l, c), 2), 1) == l
  {
    var t := Press(l, c);
    assert t.before[..|l.before|] == l.before;
    assert ([c] + l.after)[1..] == l.after;
  }

  // ---------------------------------------------------------------- the editor on raw input

  lemma KeyRest(pre: seq<int>, rest: seq<int>, i: nat)
    requires |pre| <= i < |pre + rest|
    ensures KeyAt(pre + rest, i) == match KeyAt(rest, i - |pre|)
                                    case None => None
                                    case Some(k) => Some(Key(k.code, k.next + |pre|))
  {
    assert forall k :: i <= k < |pre + rest| ==> (pre + rest)[k] == rest[k - |pre|];
  }

  /** What precedes the position read has no bearing. */
  lemma {:induction false} EditedRest(l: Line, pre: seq<int>, rest: seq<int>, i: nat)
    requires |pre| <= i <= |pre + rest|
    ensures Edited(l, pre + rest, i) == Edited(l, rest, i - |pre|)
    decreases |pre + rest| - i
  {
    hide KeyAt, Press;
    var all := pre + rest;
    assert i < |all| ==> all[i] == rest[i - |pre|];
    if i < |all| && all[i] != NEWLINE {
      var k := KeyAt(all, i);
      KeyRest(pre, rest, i);
      if k.Some? {
        EditedRest(Press(l, k.value.code), pre, rest, k.value.next);
      }
    }
  }

  /** A key of n bytes at the start of the input. */
  lemma FirstKey(l: Line, key: seq<int>, rest: seq<int>, c: int)
    requires key != [] && key[0] != NEWLINE && KeyAt(key + rest, 0) == Some(Key(c, |key|))
    ensures Edited(l, key + rest, 0) == Edited(Press(l, c), rest, 0)
  {
    hide KeyAt, Press;
    assert (key + rest)[0] == key[0];
    EditedRest(Press(l, c), key, rest, |key|);
  }

  /** ESC [ D takes the last character before the cursor behind it, ESC [ C the first one after the cursor in
      front of it. */
  lemma RawCursorKeys(b: seq<int>, a: seq<int>, c: int, rest: seq<int>)
    ensures Edited(Line(b + [c], a), [27, 91, 68] + rest, 0) == Edited(Line(b, [c] + a), rest, 0)
    ensures Edited(Line([], a), [27, 91, 68] + rest, 0) == Edited(Line([], a), rest, 0)
    ensures Edited(Line(b, [c] + a), [27, 91, 67] + rest, 0) == Edited(Line(b + [c], a), rest, 0)
    ensures Edited(Line(b, []), [27, 91, 67] + rest, 0) == Edited(Line(b, []), rest, 0)
  {
    FirstKey(Line(b + [c], a), [27, 91, 68], rest, 2);
    FirstKey(Line([], a), [27, 91, 68], rest, 2);
    FirstKey(Line(b, [c] + a), [27, 91, 67], rest, 3);
    FirstKey(Line(b, []), [27, 91, 67], rest, 3);
    assert (b + [c])[..|b|] == b && ([c] + a)[1..] == a;
  }

  /** ESC [ 3 ~ drops the first character after the cursor; 8 and 127 drop the last one before it. */
  lemma RawErasingKeys(b: seq<int>, a: seq<int>, c: int, e: int, rest: seq<int>)
    requires e == 8 || e == 127
    ensures Edited(Line(b, [c] + a), [27, 91, 51, 126] + rest, 0) == Edited(Line(b, a), rest, 0)
    ensures Edited(Line(b, []), [27, 91, 51, 126] + rest, 0) == Edited(Line(b, []), rest, 0)
    ensures Edited(Line(b + [c], a), [e] + rest, 0) == Edited(Line(b, a), rest, 0)
    ensures Edited(Line([], a), [e] + rest, 0) == Edited(Line([], a), rest, 0)
  {
    FirstKey(Line(b, [c] + a), [27, 91, 51, 126], rest, 1);
    FirstKey(Line(b, []), [27, 91, 51, 126], rest, 1);
    FirstKey(Line(b + [c], a), [e], rest, e);
    FirstKey(Line([], a), [e], rest, e);
    assert (b + [c])[..|b|] == b && ([c] + a)[1..] == a;
  }

  /** A character is inserted before the cursor while there is room for it; other control characters do nothing,
      but for three that act as the cursor keys and the delete key do. */
  lemma RawCharacters(b: seq<int>, a: seq<int>, c: int, rest: seq<int>)
    ensures c >= 32 && c != 127 ==>
      Edited(Line(b, a), [c] + rest, 0) == Edited(Line(if |b| + |a| < 255 then b + [c] else b, a), rest, 0)
    ensures c < 32 && c !in {1, 2, 3, 8, 10, 27} ==>
      Edited(Line(b, a), [c] + rest, 0) == Edited(Line(b, a), rest, 0)
    ensures Edited(Line(b, a), [1] + rest, 0) == Edited(Line(b, a), [27, 91, 51, 126] + rest, 0)
    ensures Edited(Line(b, a), [2] + rest, 0) == Edited(Line(b, a), [27, 91, 68] + rest, 0)
    ensures Edited(Line(b, a), [3] + rest, 0) == Edited(Line(b, a), [27, 91, 67] + rest, 0)
  {
    var l := Line(b, a);
    if c != 10 && c != 27 {
      FirstKey(l, [c], rest, c);
    }
    FirstKey(l, [1], rest, 1);
    FirstKey(l, [27, 91, 51, 126], rest, 1);
    FirstKey(l, [2], rest, 2);
    FirstKey(l, [27, 91, 68], rest, 2);
    FirstKey(l, [3], rest, 3);
    FirstKey(l, [27, 91, 67], rest, 3);
  }

  /** What follows once x has been read alone; a newline or an escape character is ignored in its place. */
  function Alone(l: Line, x: int, rest: seq<int>): Line
  {
    if x == 10 || x == 27 then Edited(l, rest, 0) else Edited(l, [x] + rest, 0)
  }

  /** An escape that is none of the three counts as its last character alone. */
  lemma RawEscapes(l: Line, x: int, rest: seq<int>)
    ensures x != 91 ==> Edited(l, [27, x] + rest, 0) == Alone(l, x, rest)
    ensures x !in {67, 68, 51} ==> Edited(l, [27, 91, x] + rest, 0) == Alone(l, x, rest)
    ensures x != 126 ==> Edited(l, [27, 91, 51, x] + rest, 0) == Alone(l, x, rest)
  {
    if x != 91 {
      FirstKey(l, [27, x], rest, x);
    }
    if x !in {67, 68, 51} {
      FirstKey(l, [27, 91, x], rest, x);
    }
    if x != 126 {
      FirstKey(l, [27, 91, 51, x], rest, x);
    }
    if x != 10 && x != 27 {
      FirstKey(l, [x], rest, x);
    }
  }

  /** A newline ends the line, whatever follows; so does the end of the input, also within an escape. */
  lemma RawEnds(l: Line, rest: seq<int>)
    ensures Edited(l, [10] + rest, 0) == l && Edited(l, [], 0) == l
    ensures Edited(l, [27], 0) == l && Edited(l, [27, 91], 0) == l && Edited(l, [27, 91, 51], 0) == l
  {
  }

  // ---------------------------------------------------------------- the array editor

  /** buf holds line l with the cursor at idx, its length last, and a terminator. */
  ghost predicate Shows(buf: seq<int>, idx: int, last: int, l: Line)
  {
    && |buf| == CAPACITY + 1 && idx == |l.before| && last == |l.before| + |l.after| <= CAPACITY
    && buf[..last] == l.before + l.after && buf[last] == 0
  }

  /** The left shift of the erasing keys: buf[from] goes, the rest up to last moves down. */
  method ShiftLeft(buf: array<int>, from: nat, last: nat)
    requires from <= last < buf.Length
    modifies buf
    ensures from < last ==> buf[..last - 1] == old(buf[..from]) + old(buf[from + 1..last])
  {
    var i := from;
    while i < last
      invariant from <= i <= last
      invariant buf[..from] == old(buf[..from])
      invariant forall k :: from <= k < i ==> buf[k] == old(buf[k + 1])
      invariant forall k :: i <= k < buf.Length ==> buf[k] == old(buf[k])
    {
      buf[i] := buf[i + 1];
      i := i + 1;
    }
    if from < last {
      ShiftedLeft(old(buf[..]), buf[..], from, last);
    }
  }

  lemma ShiftedLeft(b: seq<int>, b': seq<int>, from: nat, last: nat)
    requires from < last < |b| == |b'| && b'[..from] == b[..from]
    requires forall k :: from <= k < last ==> b'[k] == b[k + 1]
    ensures b'[..last - 1] == b[..from] + b[from + 1..last]
  {
    assert b'[..last - 1] == b'[..from] + b'[from..last - 1];
    assert b'[from..last - 1] == b[from + 1..last];
  }

  /** The right shift before an insertion: room opens at from. */
  method ShiftRight(buf: array<int>, from: nat, last: nat)
    requires from <= last < buf.Length
    modifies buf
    ensures buf[..from] == old(buf[..from]) && buf[from + 1..last + 1] == old(buf[from..last])
  {
    var i := last;
    while i > from
      invariant from <= i <= last
      invariant forall k :: 0 <= k <= i ==> buf[k] == old(buf[k])
      invariant forall k :: i < k <= last ==> buf[k] == old(buf[k - 1])
    {
      buf[i] := buf[i - 1];
      i := i - 1;
    }
    assert forall k :: 0 <= k < last - from ==> buf[from + 1..last + 1][k] == old(buf[from..last])[k];
  }

  /** Erasing buf[at] from a line of length last. */
  method EraseAt(buf: array<int>, at: nat, last: nat)
    requires at < last < buf.Length
    modifies buf
    ensures buf[..last - 1] == old(buf[..at]) + old(buf[at + 1..last]) && buf[last - 1] == 0
  {
    ShiftLeft(buf, at, last);
    ghost var b := buf[..last - 1];
    buf[last - 1] := 0;
    assert buf[..last - 1] == b;
  }

  /** Inserting c at position at of a line of length last. */
  method InsertAt(buf: array<int>, at: nat, last: nat, c: int)
    requires at <= last && last + 1 < buf.Length
    modifies buf
    ensures buf[..last + 1] == old(buf[..at]) + [c] + old(buf[at..last]) && buf[last + 1] == 0
  {
    ShiftRight(buf, at, last);
    ghost var p, q := buf[..at], buf[at + 1..last + 1];
    buf[at] := c;
    buf[last + 1] := 0;
    assert buf[..at] == p && buf[at + 1..last + 1] == q;
    assert buf[..last + 1] == buf[..at] + [buf[at]] + buf[at + 1..last + 1];
  }

  lemma ShowsErased(b: seq<int>, b': seq<int>, idx: nat, last: nat, at: nat, l: Line, l': Line)
    requires Shows(b, idx, last, l) && at < last && |b'| == |b|
    requires b'[..last - 1] == b[..at] + b[at + 1..last] && b'[last - 1] == 0
    requires (at == idx && l' == l.(after := l.after[1..])) || (at == idx - 1 && l' == l.(before := l.before[..at]))
    ensures Shows(b', at, last - 1, l')
  {
    var all := l.before + l.after;
    assert b[..at] == all[..at] && b[at + 1..last] == all[at + 1..];
    assert l'.before + l'.after == all[..at] + all[at + 1..];
  }

  lemma ShowsInserted(b: seq<int>, b': seq<int>, idx: nat, last: nat, c: int, l: Line)
    requires Shows(b, idx, last, l) && last < CAPACITY && |b'| == |b|
    requires b'[..last + 1] == b[..idx] + [c] + b[idx..last] && b'[last + 1] == 0
    ensures Shows(b', idx + 1, last + 1, l.(before := l.before + [c]))
  {
    var all := l.before + l.after;
    assert b[..idx] == all[..idx] == l.before && b[idx..last] == all[idx..] == l.after;
  }

  /** What a key does to the line, and to an array that shows it if it only moves the cursor. */
  lemma PressShown(b: seq<int>, idx: nat, last: nat, c: int, l: Line)
    requires Shows(b, idx, last, l)
    ensures idx == |l.before| && last == |l.before| + |l.after| <= CAPACITY && |b| == CAPACITY + 1
    ensures (c == 8 || c == 127) && idx > 0 ==> Press(l, c) == l.(before := l.before[..idx - 1])
    ensures c == 1 && idx < last ==> Press(l, c) == l.(after := l.after[1..])
    ensures c == 2 && idx > 0 ==> Shows(b, idx - 1, last, Press(l, c))
    ensures c == 3 && idx < last ==> Shows(b, idx + 1, last, Press(l, c))
    ensures c >= SPACE && c != 127 && last < CAPACITY ==> Press(l, c) == l.(before := l.before + [c])
    ensures (c == 8 || c == 127 || c == 2) && idx == 0 ==> Press(l, c) == l
    ensures (c == 1 || c == 3) && idx == last ==> Press(l, c) == l
    ensures (c < SPACE || last == CAPACITY) && c !in {1, 2, 3, 8, 127} ==> Press(l, c) == l
  {
    CursorKeys(l);
  }

  /** The body of the loop for one decoded key. */
  method PressKey(buf: array<int>, idx: nat, last: nat, c: int, ghost l: Line) returns (idx': nat, last': nat)
    requires Shows(buf[..], idx, last, l)
    modifies buf
    ensures Shows(buf[..], idx', last', Press(l, c))
  {
    hide Press, Shows;
    idx', last' := idx, last;
    ghost var b := buf[..];
    PressShown(b, idx, last, c, l);
    if c == 8 || c == 127 {
      if idx > 0 {
        idx' := idx - 1;
        EraseAt(buf, idx', last);
        last' := last - 1;
        ShowsErased(b, buf[..], idx, last, idx', l, Press(l, c));
      }
    } else if c == 1 {
      if idx < last {
        EraseAt(buf, idx, last);
        last' := last - 1;
        ShowsErased(b, buf[..], idx, last, idx, l, Press(l, c));
      }
    } else if c == 2 {
      if idx > 0 {
        idx' := idx - 1;
      }
    } else if c == 3 {
      if idx < last {
        idx' := idx + 1;
      }
    } else if c >= SPACE && last < CAPACITY {
      InsertAt(buf, idx, last, c);
      idx', last' := idx + 1, last + 1;
      ShowsInserted(b, buf[..], idx, last, c, l);
    }
  }

  /** dbg_getline on an input stream: the buffer always shows the simple editor's line. */
  method GetLine(buf: array<int>, input: seq<int>) returns (idx: nat, last: nat)
    requires buf.Length == CAPACITY + 1
    modifies buf
    ensures Shows(buf[..], idx, last, Edited(Line([], []), input, 0))
    ensures forall k :: 0 <= k < last ==> buf[k] >= SPACE
  {
    idx, last := 0, 0;
    buf[0] := 0;
    ghost var l := Line([], []);
    var i := 0;
    while i < |input| && input[i] != NEWLINE
      invariant i <= |input| && Shows(buf[..], idx, last, l)
      invariant Edited(l, input, i) == Edited(Line([], []), input, 0)
      decreases |input| - i
    {
      var k := KeyAt(input, i);
      if k.None? {
        break;
      }
      idx, last := PressKey(buf, idx, last, k.value.code, l);
      l := Press(l, k.value.code);
      i := k.value.next;
    }
    EditedProper(Line([], []), input, 0);
    assert Edited(l, input, i) == l;
    forall k | 0 <= k < last
      ensures buf[k] >= SPACE
    {
      assert buf[k] == buf[..last][k] == (l.before + l.after)[k];
    }
  }
}
