/** The growing-buffer printer of cJSON.c, proved to write exactly the text of JsonText.Render. */
module JsonPrinter {
  import opened JsonText

  const INT_MAX := 0x7FFF_FFFF

  lemma {:induction false} EscapeAppend(s: Bytes, i: nat)
    requires i < |s|
    ensures Escape(s[..i + 1]) == Escape(s[..i]) + EscapeByte(s[i])
    decreases i
  {
    hide EscapeByte, NulFree;
    if i == 0 {
      assert s[..1] == [s[0]] && s[..1][1..] == [] && s[..0] == [];
    } else {
      var r := s[1..];
      assert s[..i + 1][1..] == r[..i] && s[..i][1..] == r[..i - 1];
      EscapeAppend(r, i - 1);
    }
  }

  lemma {:induction false} EscapeGrows(s: Bytes, i: nat)
    requires i <= |s|
    ensures |Escape(s[..i])| + (|s| - i) <= |Escape(s)|
    decreases |s| - i
  {
    if i == |s| {
      assert s[..i] == s;
    } else {
      EscapeAppend(s, i);
      EscapeGrows(s, i + 1);
    }
  }

  /** No byte costs extra exactly when the text needs no escaping. */
  lemma {:induction false} NothingToEscape(s: Bytes)
    requires |Escape(s)| == |s|
    ensures Escape(s) == s
    decreases |s|
  {
    if s != [] {
      EscapeGrows(s[1..], 0);
      NothingToEscape(s[1..]);
    }
  }

  lemma SamePrefix(a: Bytes, b: Bytes, m: nat, n: nat)
    requires n <= m <= |a| && m <= |b| && a[..m] == b[..m]
    ensures a[..n] == b[..n]
  {
  }

  class PrintBuffer {
    var buffer: array?<bv8>
    var length: nat
    var offset: nat
    var depth: nat
    const noalloc: bool
    const format: bool
    ghost var oom: bool        // the allocator has failed

    ghost predicate Valid()
      reads this`buffer, this`length
    {
      buffer != null && length == buffer.Length && length <= INT_MAX
    }

    /** Ready to print more. */
    ghost predicate Ready()
      reads this`buffer, this`length, this`offset, this`oom
    {
      Valid() && !oom && (offset < length || offset == length == 0)
    }

    /** The largest buffer the printer could ever have. */
    ghost function Cap(): nat
      reads this`length
    {
      if noalloc then length else INT_MAX
    }

    /** The first n bytes. */
    ghost function Text(n: nat): Bytes
      requires buffer != null && n <= buffer.Length
      reads this`buffer, buffer
    {
      buffer[..n]
    }

    constructor (buffer: array<bv8>, noalloc: bool, format: bool)
      requires buffer.Length <= INT_MAX
      ensures Ready() && this.buffer == buffer && offset == 0 && depth == 0
      ensures this.noalloc == noalloc && this.format == format
    {
      this.buffer := buffer;
      length, offset, depth := buffer.Length, 0, 0;
      this.noalloc, this.format, oom := noalloc, format, false;
    }

    /** Make room for needed bytes and one more; false leaves nothing to rely on. */
    method Ensure(needed: nat) returns (ok: bool)
      requires Ready()
      modifies this`buffer, this`length, this`oom
      ensures ok ==> Ready() && offset + needed + 1 <= length && (buffer == old(buffer) || fresh(buffer))
      ensures ok ==> length >= old(length) && buffer[..old(length)] == old(buffer[..length])
      ensures noalloc ==> buffer == old(buffer) && length == old(length) && !oom
      ensures !oom ==> Valid() && (ok <==> offset + needed + 1 <= old(Cap()))
    {
      if length > 0 && offset >= length {
        return false;
      }
      if needed > INT_MAX {
        return false;
      }
      var total := needed + offset + 1;
      if total <= length {
        return true;
      }
      if noalloc {
        return false;
      }
      var newsize;
      if total > INT_MAX / 2 {
        if total <= INT_MAX {
          newsize := INT_MAX;
        } else {
          return false;
        }
      } else {
        newsize := total * 2;
      }
      ok := Reallocate(newsize);
    }

    /** realloc: may fail, and then the printer gives its buffer up. */
    method Reallocate(newsize: nat) returns (ok: bool)
      requires Valid() && !oom && length <= newsize <= INT_MAX
      modifies this`buffer, this`length, this`oom
      ensures ok <==> !oom
      ensures ok ==> Valid() && fresh(buffer) && length == newsize && buffer[..old(length)] == old(buffer[..length])
    {
      ok := *;
      if !ok {
        buffer, length, oom := null, 0, true;
        return;
      }
      var newbuffer := new bv8[newsize];
      var old_ := buffer;
      forall i | 0 <= i < length {
        newbuffer[i] := old_[i];
      }
      buffer, length := newbuffer, newsize;
    }

    /** strlen from the offset on; end is where the text written last stops. */
    method UpdateOffset(ghost end: nat)
      requires Valid() && offset <= end < length && buffer[end] == NUL
      requires forall i :: offset <= i < end ==> buffer[i] != NUL
      modifies this`offset
      ensures offset == end
    {
      var n := offset;
      while buffer[n] != NUL
        invariant offset <= n <= end
        decreases end - n
      {
        n := n + 1;
      }
      offset := n;
    }

    /** Reserve, store text at the offset, perhaps a NUL after it, perhaps advance. */
    method Put(text: Bytes, needed: nat, terminate: bool, advance: bool) returns (ok: bool)
      requires Ready() && |text| <= needed
      modifies this`buffer, this`length, this`oom, this`offset, buffer
      ensures ok ==> Ready() && (buffer == old(buffer) || fresh(buffer)) && length >= old(length)
      ensures ok ==> old(offset) + needed + 1 <= length && offset == old(offset) + if advance then |text| else 0
      ensures ok ==> Text(old(offset) + |text|) == old(Text(offset)) + text
      ensures ok && terminate ==> buffer[old(offset) + |text|] == NUL
      ensures noalloc ==> buffer == old(buffer) && length == old(length) && !oom
      ensures !oom ==> (ok <==> old(offset) + needed + 1 <= old(Cap()))
    {
      ghost var before := Text(offset);
      ok := Ensure(needed);
      if !ok {
        return;
      }
      SamePrefix(old(buffer[..length]), buffer[..], old(length), offset);
      assert Text(offset) == before;
      Store(text, terminate);
      assert Text(offset) == before;
      Joined(buffer[..], offset, |text|);
      if advance {
        offset := offset + |text|;
      }
    }

    method Store(text: Bytes, terminate: bool)
      requires Valid() && offset + |text| + 1 <= length
      modifies buffer
      ensures forall i :: 0 <= i < offset ==> buffer[i] == old(buffer[i])
      ensures buffer[offset..offset + |text|] == text
      ensures terminate ==> buffer[offset + |text|] == NUL
    {
      forall i | 0 <= i < |text| {
        buffer[offset + i] := text[i];
      }
      if terminate {
        buffer[offset + |text|] := NUL;
      }
    }

    lemma Joined<T>(s: seq<T>, from: nat, n: nat)
      requires from + n <= |s|
      ensures s[..from + n] == s[..from] + s[from..from + n]
    {
    }

    /** After the text that was there, pre, the buffer holds t and a NUL. */
    ghost predicate Shows(pre: Bytes, t: Bytes)
      reads this`buffer, this`length, buffer
    {
      Valid() && |pre| + |t| < length && buffer[..|pre| + |t|] == pre + t && buffer[|pre| + |t|] == NUL
    }

    /** print_string_ptr's first loop. */
    static method CountEscapes(s: Bytes) returns (extra: nat)
      ensures |s| + extra == |Escape(s)|
    {
      extra := 0;
      var i := 0;
      assert s[..0] == [];
      while i < |s|
        invariant 0 <= i <= |s| && i + extra == |Escape(s[..i])|
      {
        EscapeAppend(s, i);
        var c := s[i];
        if c == QUOTE || c == BACKSLASH || c == 8 || c == 12 || c == 10 || c == 13 || c == 9 {
          extra := extra + 1;
        } else if c < 32 {
          extra := extra + 5;
        }
        i := i + 1;
      }
      assert s[..|s|] == s;
    }

    /** print_string_ptr: the space reserved is exactly what is written, and the offset stays. */
    method PrintString(s: Bytes) returns (ok: bool)
      requires Ready() && NulFree(s)
      modifies this`buffer, this`length, this`oom, buffer
      ensures ok ==> Ready() && (buffer == old(buffer) || fresh(buffer)) && length >= old(length)
      ensures ok ==> Shows(old(Text(offset)), RenderString(s))
      ensures noalloc ==> buffer == old(buffer) && length == old(length) && !oom
      ensures !oom ==> (ok <==> old(offset) + |RenderString(s)| + 2 <= old(Cap()))
    {
      hide NulFree, Escape;
      ghost var pre := Text(offset);
      var extra := CountEscapes(s);
      var outputLength := |s| + extra;
      ok := Ensure(outputLength + 3);
      if !ok {
        return;
      }
      SamePrefix(old(buffer[..length]), buffer[..], old(length), offset);
      WriteQuoted(s, extra);
      assert buffer[..offset] == pre;
      assert buffer[..offset + |RenderString(s)|] == pre + RenderString(s);
    }

    method WriteQuoted(s: Bytes, extra: nat)
      requires Valid() && NulFree(s) && |s| + extra == |Escape(s)| && offset + |Escape(s)| + 3 <= length
      modifies buffer
      ensures forall i :: 0 <= i < offset ==> buffer[i] == old(buffer[i])
      ensures buffer[offset..offset + |RenderString(s)|] == RenderString(s)
      ensures buffer[offset + |RenderString(s)|] == NUL
    {
      hide Escape, NulFree;
      var outputLength := |s| + extra;
      if extra == 0 {
        NothingToEscape(s);
        CopyPlain(s);
      } else {
        CopyEscaped(s);
      }
      Close(outputLength);
    }

    method Close(n: nat)
      requires Valid() && offset + n + 3 <= length && buffer[offset] == QUOTE
      modifies buffer
      ensures forall i :: 0 <= i < offset ==> buffer[i] == old(buffer[i])
      ensures buffer[offset..offset + (n + 2)] == [QUOTE] + old(buffer[offset + 1..offset + 1 + n]) + [QUOTE]
      ensures buffer[offset + (n + 2)] == NUL
    {
      ghost var inner := buffer[offset + 1..offset + 1 + n];
      buffer[offset + n + 1] := QUOTE;
      buffer[offset + n + 2] := NUL;
      assert buffer[offset + 1..offset + 1 + n] == inner;
      Enclosed(buffer[..], offset, n);
    }

    lemma Enclosed<T>(s: seq<T>, from: nat, n: nat)
      requires from + n + 2 <= |s|
      ensures s[from..from + n + 2] == [s[from]] + s[from + 1..from + 1 + n] + [s[from + n + 1]]
    {
    }

    method CopyPlain(s: Bytes)
      requires Valid() && offset + |s| + 3 <= length
      modifies buffer
      ensures forall i :: 0 <= i < offset ==> buffer[i] == old(buffer[i])
      ensures buffer[offset] == QUOTE
      ensures buffer[offset + 1..offset + 1 + |s|] == s
    {
      buffer[offset] := QUOTE;
      forall i | 0 <= i < |s| {
        buffer[offset + 1 + i] := s[i];
      }
    }

    /** The second loop: every byte as it is or escaped. */
    method CopyEscaped(s: Bytes)
      requires Valid() && NulFree(s) && offset + |Escape(s)| + 3 <= length
      modifies buffer
      ensures forall i :: 0 <= i < offset ==> buffer[i] == old(buffer[i])
      ensures buffer[offset] == QUOTE
      ensures buffer[offset + 1..offset + 1 + |Escape(s)|] == Escape(s)
    {
      buffer[offset] := QUOTE;
      var start := offset + 1;
      var out := start;
      var i := 0;
      assert s[..0] == [];
      while i < |s|
        invariant 0 <= i <= |s| && out == start + |Escape(s[..i])|
        invariant forall j :: 0 <= j < offset ==> buffer[j] == old(buffer[j])
        invariant buffer[offset] == QUOTE && out <= start + |Escape(s)|
        invariant buffer[start..out] == Escape(s[..i])
      {
        EscapeAppend(s, i);
        EscapeGrows(s, i + 1);
        out := StoreNext(out, s[i], start);
        i := i + 1;
      }
      assert s[..|s|] == s;
    }

    method StoreNext(out: nat, c: bv8, ghost start: nat) returns (next: nat)
      requires Valid() && c != NUL && start <= out && out + |EscapeByte(c)| < length
      modifies buffer
      ensures next == out + |EscapeByte(c)|
      ensures forall j :: 0 <= j < start ==> buffer[j] == old(buffer[j])
      ensures buffer[start..next] == old(buffer[start..out]) + EscapeByte(c)
    {
      hide EscapeByte;
      next := StoreByte(out, c);
      assert buffer[start..out] == old(buffer[start..out]);
      assert buffer[start..next] == buffer[start..out] + buffer[out..next];
    }

    /** One turn of it; sprintf also writes a NUL behind a \\u escape, which is overwritten later. */
    method StoreByte(out: nat, c: bv8) returns (next: nat)
      requires Valid() && c != NUL && out + |EscapeByte(c)| < length
      modifies buffer
      ensures next == out + |EscapeByte(c)|
      ensures forall j :: 0 <= j < out ==> buffer[j] == old(buffer[j])
      ensures buffer[out..next] == EscapeByte(c)
    {
      if c > 31 && c != QUOTE && c != BACKSLASH {
        buffer[out] := c;
        next := out + 1;
        assert buffer[out..next] == [c];
      } else {
        buffer[out] := BACKSLASH;
        if c == BACKSLASH {
          buffer[out + 1] := BACKSLASH;
        } else if c == QUOTE {
          buffer[out + 1] := QUOTE;
        } else if c == 8 {
          buffer[out + 1] := 0x62;
        } else if c == 12 {
          buffer[out + 1] := 0x66;
        } else if c == 10 {
          buffer[out + 1] := 0x6E;
        } else if c == 13 {
          buffer[out + 1] := 0x72;
        } else if c == 9 {
          buffer[out + 1] := 0x74;
        } else {
          next := StoreUnicode(out, c);
          return;
        }
        next := out + 2;
        assert buffer[out..next] == [BACKSLASH, buffer[out + 1]];
      }
    }

    /** sprintf with "u%04x" */
    method StoreUnicode(out: nat, c: bv8) returns (next: nat)
      requires Valid() && out + 6 < length && buffer[out] == BACKSLASH
      modifies buffer
      ensures next == out + 6
      ensures forall j :: 0 <= j < out ==> buffer[j] == old(buffer[j])
      ensures buffer[out..next] == [BACKSLASH, 0x75, 0x30, 0x30, HexChar(c >> 4), HexChar(c & 0xF)]
    {
      hide HexChar;
      buffer[out + 1], buffer[out + 2], buffer[out + 3] := 0x75, 0x30, 0x30;
      buffer[out + 4], buffer[out + 5], buffer[out + 6] := HexChar(c >> 4), HexChar(c & 0xF), NUL;
      next := out + 6;
    }

    method PrintNumber(text: Bytes) returns (ok: bool)
      requires Ready() && NumberText(text)
      modifies this`buffer, this`length, this`oom, this`offset, buffer
      ensures ok ==> Ready() && (buffer == old(buffer) || fresh(buffer)) && length >= old(length)
      ensures ok ==> Shows(old(Text(offset)), text) && offset == old(offset) + |text|
      ensures noalloc ==> buffer == old(buffer) && length == old(length) && !oom
      ensures !oom ==> (ok <==> old(offset) + |text| + 2 <= old(Cap()))
    {
      if |text| > MAX_NUMBER_TEXT {
        return false;
      }
      ok := Put(text, |text| + 1, true, true);
    }

    /** A literal: reserved with its NUL, and the offset stays. */
    method PrintWord(word: Bytes) returns (ok: bool)
      requires Ready()
      modifies this`buffer, this`length, this`oom, this`offset, buffer
      ensures ok ==> Ready() && (buffer == old(buffer) || fresh(buffer)) && length >= old(length)
      ensures ok ==> Shows(old(Text(offset)), word) && offset == old(offset)
      ensures noalloc ==> buffer == old(buffer) && length == old(length) && !oom
      ensures !oom ==> (ok <==> old(offset) + |word| + 2 <= old(Cap()))
    {
      ok := Put(word, |word| + 1, true, false);
    }

    /** update_offset after printing t: strlen finds exactly its end. */
    method MoveOn(ghost pre: Bytes, ghost t: Bytes)
      requires Shows(pre, t) && NulFree(t) && |pre| <= offset <= |pre| + |t|
      modifies this`offset
      ensures offset == |pre| + |t| && offset < length && Text(offset) == pre + t
    {
      forall i | offset <= i < |pre| + |t|
        ensures buffer[i] != NUL
      {
        assert buffer[..|pre| + |t|][i] == t[i - |pre|];
      }
      UpdateOffset(|pre| + |t|);
    }

    /** print_value: the buffer gets Render's text and a NUL, or the text and two more bytes do not fit. */
    method PrintValue(v: Value) returns (ok: bool)
      requires Ready() && WellFormed(v)
      modifies this`buffer, this`length, this`oom, this`offset, this`depth, buffer
      ensures ok ==> Ready() && (buffer == old(buffer) || fresh(buffer)) && length >= old(length) && depth == old(depth)
      ensures ok ==> Shows(old(Text(offset)), Render(v, format, old(depth)))
      ensures ok ==> old(offset) <= offset <= old(offset) + |Render(v, format, old(depth))|
      ensures noalloc ==> buffer == old(buffer) && length == old(length) && !oom
      ensures !oom ==> (ok <==> old(offset) + |Render(v, format, old(depth))| + 2 <= old(Cap()))
      decreases v, 6
    {
      match v
      case Null => ok := PrintWord(NULL_TEXT);
      case False => ok := PrintWord(FALSE_TEXT);
      case True => ok := PrintWord(TRUE_TEXT);
      case Number(text) => ok := PrintNumber(text);
      case String(s) => ok := PrintString(s);
      case Array(items) => ok := PrintArray(v);
      case Object(members) => ok := PrintObject(v);
    }

    /** A value and the update_offset that follows it. */
    method PrintPart(v: Value) returns (ok: bool)
      requires Ready() && WellFormed(v)
      modifies this`buffer, this`length, this`oom, this`offset, this`depth, buffer
      ensures ok ==> Ready() && (buffer == old(buffer) || fresh(buffer)) && length >= old(length) && depth == old(depth)
      ensures ok ==> offset == old(offset) + |Render(v, format, old(depth))|
      ensures ok ==> Text(offset) == old(Text(offset)) + Render(v, format, old(depth))
      ensures noalloc ==> buffer == old(buffer) && length == old(length) && !oom
      ensures !oom ==> (ok <==> old(offset) + |Render(v, format, old(depth))| + 2 <= old(Cap()))
      decreases v, 7
    {
      hide Render;
      ghost var pre := Text(offset);
      ok := PrintValue(v);
      if ok {
        RenderNulFree(v, format, depth);
        MoveOn(pre, Render(v, format, depth));
      }
    }

    method PrintArray(v: Value) returns (ok: bool)
      requires Ready() && v.Array? && WellFormed(v)
      modifies this`buffer, this`length, this`oom, this`offset, this`depth, buffer
      ensures ok ==> Ready() && (buffer == old(buffer) || fresh(buffer)) && length >= old(length) && depth == old(depth)
      ensures ok ==> Shows(old(Text(offset)), Render(v, format, old(depth)))
      ensures ok ==> old(offset) <= offset <= old(offset) + |Render(v, format, old(depth))|
      ensures noalloc ==> buffer == old(buffer) && length == old(length) && !oom
      ensures !oom ==> (ok <==> old(offset) + |Render(v, format, old(depth))| + 2 <= old(Cap()))
      decreases v, 5
    {
      hide RenderItems, Render, WellFormed;
      ghost var pre, inner := Text(offset), RenderItems(v.items, format, depth + 1);
      ArrayText(v, format, depth, pre);
      ok := Put([LBRACKET], 1, false, true);
      if !ok {
        return;
      }
      depth := depth + 1;
      ok := CloseArray(v);
      depth := if ok then depth - 1 else depth;
    }

    method CloseArray(v: Value) returns (ok: bool)
      requires Ready() && v.Array? && WellFormed(v)
      modifies this`buffer, this`length, this`oom, this`offset, this`depth, buffer
      ensures ok ==> Ready() && (buffer == old(buffer) || fresh(buffer)) && length >= old(length) && depth == old(depth)
      ensures ok ==> Shows(old(Text(offset)) + RenderItems(v.items, format, old(depth)), [RBRACKET])
      ensures ok ==> offset == old(offset) + |RenderItems(v.items, format, old(depth))|
      ensures noalloc ==> buffer == old(buffer) && length == old(length) && !oom
      ensures !oom ==> (ok <==> old(offset) + |RenderItems(v.items, format, old(depth))| + 3 <= old(Cap()))
      decreases v, 4
    {
      hide RenderItems, WellFormed;
      EmptyText(format, depth);
      ok := PrintItems(v);
      if ok {
        ok := Put([RBRACKET], 2, true, false);
      }
    }

    /** The loop of print_array, between the brackets. */
    method PrintItems(v: Value) returns (ok: bool)
      requires Ready() && v.Array? && WellFormed(v)
      modifies this`buffer, this`length, this`oom, this`offset, this`depth, buffer
      ensures ok ==> Ready() && (buffer == old(buffer) || fresh(buffer)) && length >= old(length) && depth == old(depth)
      ensures ok ==> offset == old(offset) + |RenderItems(v.items, format, old(depth))|
      ensures ok ==> Text(offset) == old(Text(offset)) + RenderItems(v.items, format, old(depth))
      ensures noalloc ==> buffer == old(buffer) && length == old(length) && !oom
      ensures !oom ==>
                (ok <==> v.items == [] || old(offset) + |RenderItems(v.items, format, old(depth))| + 2 <= old(Cap()))
      decreases v, 3
    {
      hide Render, WellFormed, RenderItems, ItemText;
      EmptyText(format, depth);
      ghost var pre, start, d := Text(offset), offset, depth;
      ghost var all := RenderItems(v.items, format, d);
      var items := v.items;
      ghost var done: Bytes := [];
      assert Text(offset) == pre + done;
      ItemsWellFormed(v);
      ok := true;
      while items != []
        invariant ok && Ready() && (buffer == old(buffer) || fresh(buffer)) && length >= old(length) && depth == d
        invariant noalloc ==> buffer == old(buffer) && length == old(length) && !oom
        invariant |items| <= |v.items|
        invariant forall i :: 0 <= i < |items| ==> WellFormed(items[i]) && items[i] < v
        invariant done + RenderItems(items, format, d) == all
        invariant offset == start + |done| && Text(offset) == pre + done
        invariant |items| < |v.items| ==> offset + 2 <= old(Cap())
        decreases |items|
      {
        ghost var step := ItemText(items, format, d);
        ItemsStep(items, done, format, d);
        assert |all| >= |done| + |step|;
        ok := PrintItem(v, items);
        if !ok {
          return;
        }
        assert (pre + done) + step == pre + (done + step);
        done := done + step;
        items := items[1..];
      }
    }

    /** One element and the separator that follows it unless it is the last. */
    method PrintItem(ghost v: Value, items: seq<Value>) returns (ok: bool)
      requires Ready() && items != [] && WellFormed(items[0]) && items[0] < v
      modifies this`buffer, this`length, this`oom, this`offset, this`depth, buffer
      ensures ok ==> Ready() && (buffer == old(buffer) || fresh(buffer)) && length >= old(length) && depth == old(depth)
      ensures ok ==> offset == old(offset) + |ItemText(items, format, old(depth))|
      ensures ok ==> Text(offset) == old(Text(offset)) + ItemText(items, format, old(depth))
      ensures noalloc ==> buffer == old(buffer) && length == old(length) && !oom
      ensures !oom ==> (ok <==> old(offset) + |ItemText(items, format, old(depth))| + 2 <= old(Cap()))
      decreases v, 2
    {
      hide Render;
      ghost var pre, t := Text(offset), Render(items[0], format, depth);
      ok := PrintPart(items[0]);
      if !ok {
        return;
      }
      if |items| > 1 {
        var sepLength := if format then 2 else 1;
        ok := Put(ItemSeparator(format), sepLength + 1, true, true);
        assert (pre + t) + ItemSeparator(format) == pre + (t + ItemSeparator(format));
      } else {
        assert t + [] == t;
      }
    }

    method PrintObject(v: Value) returns (ok: bool)
      requires Ready() && v.Object? && WellFormed(v)
      modifies this`buffer, this`length, this`oom, this`offset, this`depth, buffer
      ensures ok ==> Ready() && (buffer == old(buffer) || fresh(buffer)) && length >= old(length) && depth == old(depth)
      ensures ok ==> Shows(old(Text(offset)), Render(v, format, old(depth)))
      ensures ok ==> old(offset) <= offset <= old(offset) + |Render(v, format, old(depth))|
      ensures noalloc ==> buffer == old(buffer) && length == old(length) && !oom
      ensures !oom ==> (ok <==> old(offset) + |Render(v, format, old(depth))| + 2 <= old(Cap()))
      decreases v, 5
    {
      hide RenderMembers, Render, WellFormed, Tabs, CloseText, NulFree;
      ghost var pre := Text(offset);
      ObjectText(v, format, depth, pre);
      ok := PrintOpen();
      if !ok {
        return;
      }
      depth := depth + 1;
      ok := CloseObject(v);
      depth := if ok then depth - 1 else depth;
    }

    method PrintOpen() returns (ok: bool)
      requires Ready()
      modifies this`buffer, this`length, this`oom, this`offset, buffer
      ensures ok ==> Ready() && (buffer == old(buffer) || fresh(buffer)) && length >= old(length)
      ensures ok ==> offset == old(offset) + if format then 2 else 1
      ensures ok ==> Text(offset) == old(Text(offset)) + if format then [LBRACE, LF] else [LBRACE]
      ensures noalloc ==> buffer == old(buffer) && length == old(length) && !oom
      ensures !oom ==> (ok <==> old(offset) + (if format then 2 else 1) + 2 <= old(Cap()))
    {
      var openLength := if format then 2 else 1;
      ok := Put(if format then [LBRACE, LF] else [LBRACE], openLength + 1, false, true);
    }

    method CloseObject(v: Value) returns (ok: bool)
      requires Ready() && v.Object? && WellFormed(v) && depth > 0
      modifies this`buffer, this`length, this`oom, this`offset, this`depth, buffer
      ensures ok ==> Ready() && (buffer == old(buffer) || fresh(buffer)) && length >= old(length) && depth == old(depth)
      ensures ok ==> Shows(old(Text(offset)) + RenderMembers(v.members, format, old(depth)),
                           CloseText(format, old(depth)))
      ensures ok ==> offset == old(offset) + |RenderMembers(v.members, format, old(depth))|
      ensures noalloc ==> buffer == old(buffer) && length == old(length) && !oom
      ensures !oom ==>
                (ok <==> old(offset) + |RenderMembers(v.members, format, old(depth))|
                         + |CloseText(format, old(depth))| + 2 <= old(Cap()))
      decreases v, 4
    {
      hide RenderMembers, WellFormed, Tabs;
      NoMembers(format, depth);
      ok := PrintMembers(v);
      if ok {
        ok := Put(CloseText(format, depth), if format then depth + 1 else 2, true, false);
      }
    }

    /** The loop of print_object, between the braces. */
    method PrintMembers(v: Value) returns (ok: bool)
      requires Ready() && v.Object? && WellFormed(v)
      modifies this`buffer, this`length, this`oom, this`offset, this`depth, buffer
      ensures ok ==> Ready() && (buffer == old(buffer) || fresh(buffer)) && length >= old(length) && depth == old(depth)
      ensures ok ==> offset == old(offset) + |RenderMembers(v.members, format, old(depth))|
      ensures ok ==> Text(offset) == old(Text(offset)) + RenderMembers(v.members, format, old(depth))
      ensures noalloc ==> buffer == old(buffer) && length == old(length) && !oom
      ensures !oom ==>
                (ok <==> v.members == []
                         || old(offset) + |RenderMembers(v.members, format, old(depth))| + 2 <= old(Cap()))
      decreases v, 3
    {
      hide Render, WellFormed, NulFree, MemberText, RenderMembers;
      NoMembers(format, depth);
      ghost var pre, start, d := Text(offset), offset, depth;
      ghost var all := RenderMembers(v.members, format, d);
      var members := v.members;
      ghost var done: Bytes := [];
      assert Text(offset) == pre + done;
      MembersWellFormed(v);
      ok := true;
      while members != []
        invariant ok && Ready() && (buffer == old(buffer) || fresh(buffer)) && length >= old(length) && depth == d
        invariant noalloc ==> buffer == old(buffer) && length == old(length) && !oom
        invariant |members| <= |v.members|
        invariant forall i :: 0 <= i < |members| ==>
                    NulFree(members[i].key) && WellFormed(members[i].value) && members[i].value < v
        invariant done + RenderMembers(members, format, d) == all
        invariant offset == start + |done| && Text(offset) == pre + done
        invariant |members| < |v.members| ==> offset + 2 <= old(Cap())
        decreases |members|
      {
        ghost var step := MemberText(members, format, d);
        MembersStep(members, done, format, d);
        assert |all| >= |done| + |step|;
        ok := PrintMember(v, members);
        if !ok {
          return;
        }
        assert (pre + done) + step == pre + (done + step);
        done := done + step;
        members := members[1..];
      }
    }

    /** One member: tabs, key, separator, value, and the comma or line end. */
    method PrintMember(ghost v: Value, members: seq<Member>) returns (ok: bool)
      requires Ready() && members != [] && NulFree(members[0].key) && WellFormed(members[0].value)
      requires members[0].value < v
      modifies this`buffer, this`length, this`oom, this`offset, this`depth, buffer
      ensures ok ==> Ready() && (buffer == old(buffer) || fresh(buffer)) && length >= old(length) && depth == old(depth)
      ensures ok ==> offset == old(offset) + |MemberText(members, format, old(depth))|
      ensures ok ==> Text(offset) == old(Text(offset)) + MemberText(members, format, old(depth))
      ensures noalloc ==> buffer == old(buffer) && length == old(length) && !oom
      ensures !oom ==> (ok <==> old(offset) + |MemberText(members, format, old(depth))| + 2 <= old(Cap()))
      decreases v, 2
    {
      hide Render, KeyText, WellFormed, NulFree;
      var m, end := members[0], MemberEnd(|members| == 1, format);
      MemberLengths(members, format, depth, Text(offset));
      ok := PrintKey(m.key);
      if !ok {
        return;
      }
      ok := PrintPart(m.value);
      if !ok {
        return;
      }
      var endLength := (if format then 1 else 0) + (if |members| > 1 then 1 else 0);
      ok := Put(end, endLength + 1, true, true);
    }

    method PrintTabs() returns (ok: bool)
      requires Ready()
      modifies this`buffer, this`length, this`oom, this`offset, buffer
      ensures ok ==> Ready() && (buffer == old(buffer) || fresh(buffer)) && length >= old(length)
      ensures ok ==> offset == old(offset) + |LineTabs(format, depth)|
      ensures ok ==> Text(offset) == old(Text(offset)) + LineTabs(format, depth)
      ensures noalloc ==> buffer == old(buffer) && length == old(length) && !oom
      ensures !oom ==> ok || old(offset) + |LineTabs(format, depth)| + 1 > old(Cap())
    {
      hide Tabs;
      ok := true;
      if format {
        ok := Put(Tabs(depth), depth, false, true);
      }
    }

    method PrintKey(key: Bytes) returns (ok: bool)
      requires Ready() && NulFree(key)
      modifies this`buffer, this`length, this`oom, this`offset, buffer
      ensures ok ==> Ready() && (buffer == old(buffer) || fresh(buffer)) && length >= old(length)
      ensures ok ==> offset == old(offset) + |KeyText(key, format, depth)|
      ensures ok ==> Text(offset) == old(Text(offset)) + KeyText(key, format, depth)
      ensures noalloc ==> buffer == old(buffer) && length == old(length) && !oom
      ensures !oom ==> ok || old(offset) + |KeyText(key, format, depth)| + 2 > old(Cap())
    {
      hide RenderString, NulFree, Tabs, KeyText, KeySeparator, LineTabs;
      ghost var pre, tabs := Text(offset), LineTabs(format, depth);
      KeyLengths(key, format, depth, pre);
      ok := PrintTabs();
      if !ok {
        return;
      }
      ok := PrintString(key);
      if !ok {
        return;
      }
      StringNulFree(key);
      MoveOn(pre + tabs, RenderString(key));
      ok := Put(KeySeparator(format), |KeySeparator(format)|, false, true);
    }
  }

  lemma ArrayText(v: Value, fmt: bool, k: nat, pre: Bytes)
    requires v.Array?
    ensures var inner := RenderItems(v.items, fmt, k + 1);
            |Render(v, fmt, k)| == |inner| + 2 && pre + Render(v, fmt, k) == ((pre + [LBRACKET]) + inner) + [RBRACKET]
  {
  }

  lemma EmptyText(fmt: bool, k: nat)
    ensures RenderItems([], fmt, k) == []
  {
  }

  function ItemText(items: seq<Value>, fmt: bool, k: nat): Bytes
    requires items != []
  {
    Render(items[0], fmt, k) + if |items| > 1 then ItemSeparator(fmt) else []
  }

  lemma ItemsStep(items: seq<Value>, done: Bytes, fmt: bool, k: nat)
    requires items != []
    ensures done + RenderItems(items, fmt, k) == (done + ItemText(items, fmt, k)) + RenderItems(items[1..], fmt, k)
  {
  }

  lemma ItemsWellFormed(v: Value)
    requires v.Array? && WellFormed(v)
    ensures forall i :: 0 <= i < |v.items| ==> WellFormed(v.items[i]) && v.items[i] < v
  {
  }

  function LineTabs(fmt: bool, k: nat): Bytes {
    if fmt then Tabs(k) else []
  }

  function KeyText(key: Bytes, fmt: bool, k: nat): Bytes {
    LineTabs(fmt, k) + RenderString(key) + KeySeparator(fmt)
  }

  function MemberText(members: seq<Member>, fmt: bool, k: nat): Bytes
    requires members != []
  {
    KeyText(members[0].key, fmt, k) + Render(members[0].value, fmt, k) + MemberEnd(|members| == 1, fmt)
  }

  function CloseText(fmt: bool, k: nat): Bytes
    requires k > 0
  {
    LineTabs(fmt, k - 1) + [RBRACE]
  }

  lemma StringNulFree(s: Bytes)
    ensures NulFree(RenderString(s)) && |RenderString(s)| >= 2
  {
  }

  lemma KeyLengths(key: Bytes, fmt: bool, k: nat, pre: Bytes)
    ensures |KeyText(key, fmt, k)| == |LineTabs(fmt, k)| + |RenderString(key)| + |KeySeparator(fmt)|
    ensures pre + KeyText(key, fmt, k) == ((pre + LineTabs(fmt, k)) + RenderString(key)) + KeySeparator(fmt)
    ensures pre + [] == pre
  {
  }

  lemma MemberLengths(members: seq<Member>, fmt: bool, k: nat, pre: Bytes)
    requires members != [] && WellFormed(members[0].value)
    ensures var key, t := KeyText(members[0].key, fmt, k), Render(members[0].value, fmt, k);
            var end := MemberEnd(|members| == 1, fmt);
            && |t| > 0 && |MemberText(members, fmt, k)| == |key| + |t| + |end|
            && pre + MemberText(members, fmt, k) == ((pre + key) + t) + end
  {
    RenderNulFree(members[0].value, fmt, k);
    hide Render, KeyText, MemberEnd, WellFormed, NulFree;
  }

  lemma ObjectText(v: Value, fmt: bool, k: nat, pre: Bytes)
    requires v.Object?
    ensures var open, inner := if fmt then [LBRACE, LF] else [LBRACE], RenderMembers(v.members, fmt, k + 1);
            && |Render(v, fmt, k)| == |open| + |inner| + |CloseText(fmt, k + 1)|
            && pre + Render(v, fmt, k) == ((pre + open) + inner) + CloseText(fmt, k + 1)
  {
  }

  lemma NoMembers(fmt: bool, k: nat)
    ensures RenderMembers([], fmt, k) == []
  {
  }

  lemma MembersStep(members: seq<Member>, done: Bytes, fmt: bool, k: nat)
    requires members != []
    ensures done + RenderMembers(members, fmt, k)
            == (done + MemberText(members, fmt, k)) + RenderMembers(members[1..], fmt, k)
  {
    hide Render, RenderString;
  }

  lemma MembersWellFormed(v: Value)
    requires v.Object? && WellFormed(v)
    ensures forall i :: 0 <= i < |v.members| ==>
              NulFree(v.members[i].key) && WellFormed(v.members[i].value) && v.members[i].value < v
  {
  }

  /** print, behind cJSON_Print and cJSON_PrintUnformatted: 256 bytes to begin with, cut to size in the
      end. Without allocation failures it succeeds exactly when text and two more bytes fit an int. */
  method Print(item: Value, fmt: bool) returns (printed: array?<bv8>, ghost oom: bool)
    requires WellFormed(item)
    ensures printed != null ==> fresh(printed) && printed[..] == Render(item, fmt, 0) + [NUL]
    ensures !oom ==> (printed != null <==> |Render(item, fmt, 0)| + 2 <= INT_MAX)
  {
    hide Render;
    var first := new bv8[256];
    var p := new PrintBuffer(first, false, fmt);
    ghost var t := Render(item, fmt, 0);
    assert p.Text(0) == [];
    var ok := p.PrintValue(item);
    if !ok {
      return null, p.oom;
    }
    RenderNulFree(item, fmt, 0);
    assert [] + t == t;
    p.MoveOn([], t);
    var cut := new bv8[p.offset + 1];
    forall i | 0 <= i < p.offset + 1 {
      cut[i] := p.buffer[i];
    }
    assert cut[..] == p.Text(p.offset) + [p.buffer[p.offset]];
    var failed := *;
    printed, oom := if failed then null else cut, failed;
  }

  /** cJSON_PrintBuffered: the same text for every initial size. */
  method PrintBuffered(item: Value, prebuffer: int, fmt: bool) returns (printed: array?<bv8>, ghost oom: bool)
    requires WellFormed(item) && prebuffer <= INT_MAX
    ensures printed != null ==> fresh(printed) && Render(item, fmt, 0) + [NUL] <= printed[..]
    ensures !oom ==> (printed != null <==> prebuffer >= 0 && |Render(item, fmt, 0)| + 2 <= INT_MAX)
  {
    hide Render;
    oom := false;
    if prebuffer < 0 {
      return null, false;
    }
    var first := new bv8[prebuffer];
    var p := new PrintBuffer(first, false, fmt);
    assert p.Text(0) == [];
    var ok := p.PrintValue(item);
    oom := p.oom;
    if !ok {
      return null, oom;
    }
    ghost var t := Render(item, fmt, 0);
    assert [] + t == t;
    assert p.buffer[..|t| + 1] == p.buffer[..|t|] + [p.buffer[|t|]];
    printed := p.buffer;
  }

  /** cJSON_PrintPreallocated: the caller's buffer, which is never replaced. cJSON.h asks for five
      spare bytes; the printer needs room for the text, its NUL and exactly one byte more. */
  method PrintPreallocated(item: Value, buf: array?<bv8>, fmt: bool) returns (ok: bool)
    requires WellFormed(item) && (buf != null ==> buf.Length <= INT_MAX)
    modifies if buf == null then {} else {buf}
    ensures ok <==> buf != null && |Render(item, fmt, 0)| + 2 <= buf.Length
    ensures ok ==> Render(item, fmt, 0) + [NUL] <= buf[..]
  {
    hide Render;
    if buf == null {
      return false;
    }
    var p := new PrintBuffer(buf, true, fmt);
    assert p.Text(0) == [];
    ok := p.PrintValue(item);
    if ok {
      ghost var t := Render(item, fmt, 0);
      assert [] + t == t;
      assert buf[..|t| + 1] == buf[..|t|] + [buf[|t|]];
    }
  }
}
