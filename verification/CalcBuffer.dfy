/**
 The text buffers of AmiCalc's CalcState: a fixed array of characters with a length, closed by a
 NUL, edited in place by moves and copies.
 */
module CalcBuffer {
  import opened Calc
  import opened CalcText

  const EXPR_TMP := MAX_EXPR + 64

  method FindChar(s: string, c: char) returns (i: nat)
    ensures i == IndexOf(s, c)
  {
    i := 0;
    while i < |s| && s[i] != c
      invariant i <= |s| && i + IndexOf(s[i..], c) == IndexOf(s, c)
    {
      assert s[i..][1..] == s[i + 1..];
      i := i + 1;
    }
  }

  /** memmove within one array. */
  method MoveChars(a: array<char>, dst: nat, src: nat, n: nat)
    requires dst + n <= a.Length && src + n <= a.Length
    modifies a
    ensures a[dst..dst + n] == old(a[src..src + n]) && a[..dst] == old(a[..dst]) && a[dst + n..] == old(a[dst + n..])
  {
    forall i | 0 <= i < n { a[dst + i] := a[src + i]; }
  }

  /** memcpy of a text into an array. */
  method CopyChars(a: array<char>, dst: nat, text: string)
    requires dst + |text| <= a.Length
    modifies a
    ensures a[dst..dst + |text|] == text && a[..dst] == old(a[..dst]) && a[dst + |text|..] == old(a[dst + |text|..])
    ensures a[..dst + |text|] == old(a[..dst]) + text
  {
    forall i | 0 <= i < |text| { a[dst + i] := text[i]; }
  }

  lemma TailSplit(s: string, n: nat, text: string, kept: nat)
    requires n <= |s| <= MAX_EXPR && |text| <= MAX_EXPR
    requires kept == if n + |text| > MAX_EXPR then MAX_EXPR - |text| else n
    ensures Tail(s[..n] + text) == s[n - kept..n] + text
  {}

  lemma NoNulInside(s: string, from: nat, to: nat, text: string)
    requires from <= to <= |s| && '\0' !in s && '\0' !in text
    ensures '\0' !in s[from..to] + text
  {}

  class Buffer {
    const chars: array<char>
    var len: nat

    /** Closed by a NUL at its length, and by none before. */
    ghost predicate Valid()
      reads this, chars
    {
      len < chars.Length && chars[len] == '\0' && '\0' !in chars[..len]
    }

    ghost function Str(): string
      reads this, chars
      requires len <= chars.Length
    {
      chars[..len]
    }

    constructor (capacity: nat)
      ensures Valid() && Str() == "" && fresh(chars) && chars.Length == capacity + 1
    {
      chars := new char[capacity + 1](_ => '\0');
      len := 0;
    }

    method Clear()
      requires chars.Length > 0
      modifies this, chars
      ensures Valid() && Str() == ""
    {
      len := 0;
      chars[0] := '\0';
    }

    method Push(c: char)
      requires Valid() && len + 1 < chars.Length && c != '\0'
      modifies this, chars
      ensures Valid() && Str() == old(Str()) + [c]
    {
      chars[len] := c;
      len := len + 1;
      chars[len] := '\0';
    }

    method Truncate(n: nat)
      requires Valid() && n <= len
      modifies this, chars
      ensures Valid() && Str() == old(Str())[..n]
    {
      len := n;
      chars[len] := '\0';
      assert chars[..n] == old(chars[..len])[..n];
    }

    method Load(text: string)
      requires |text| < chars.Length && '\0' !in text
      modifies this, chars
      ensures Valid() && Str() == text
    {
      CopyChars(chars, 0, text);
      len := |text|;
      chars[len] := '\0';
      assert chars[..len] == text;
    }

    /** insert_char: the tail, with its NUL, moved up by one. */
    method Insert(pos: nat, c: char)
      requires Valid() && pos <= len && len + 1 < chars.Length && c != '\0'
      modifies this, chars
      ensures Valid() && Str() == old(Str())[..pos] + [c] + old(Str())[pos..]
    {
      ghost var was := chars[..];
      MoveChars(chars, pos + 1, pos, len - pos + 1);
      assert chars[pos + 1..len + 2] == was[pos..len + 1] && chars[len + 1] == was[len];
      assert chars[pos + 1..len + 1] == was[pos..len];
      chars[pos] := c;
      len := len + 1;
      assert chars[..len] == was[..pos] + [c] + was[pos..old(len)];
      assert old(Str()) == was[..old(len)];
    }

    /** remove_char: the tail, with its NUL, moved down by one. */
    method Remove(pos: nat)
      requires Valid() && pos < len
      modifies this, chars
      ensures Valid() && Str() == old(Str())[..pos] + old(Str())[pos + 1..]
    {
      ghost var was := chars[..];
      MoveChars(chars, pos, pos + 1, len - pos);
      assert chars[pos..len] == was[pos + 1..len + 1] && chars[len - 1] == was[len];
      assert chars[pos..len - 1] == was[pos + 1..len];
      len := len - 1;
      assert chars[..len] == was[..pos] + was[pos + 1..old(len)];
      assert old(Str()) == was[..old(len)];
    }

    method SetAt(i: nat, c: char)
      requires Valid() && i < len && c != '\0'
      modifies chars
      ensures Valid() && Str() == old(Str())[i := c]
    {
      chars[i] := c;
    }

    method ChangeSignAt(i: nat)
      requires Valid() && chars.Length == MAX_ENTRY + 1 && len > 0 && i == SignPlace(Str())
      modifies this, chars
      ensures Valid() && Str() == SignEntry(old(Str()))
    {
      if i < len && chars[i] == '-' {
        Remove(i);
      } else if 0 < i < len && chars[i] == '+' {
        SetAt(i, '-');
      } else if len < MAX_ENTRY {
        Insert(i, '-');
      }
    }

    /** handle_sign on a typed entry. */
    method FlipSign()
      requires Valid() && chars.Length == MAX_ENTRY + 1
      modifies this, chars
      ensures Valid() && Str() == SignEntry(old(Str()))
    {
      if len == 0 {
        Push('-');
        return;
      }
      var s := chars[..len];
      var i := FindChar(s, 'e');
      if i == |s| { i := FindChar(s, 'E'); }
      ChangeSignAt(if i == |s| then 0 else i + 1);
    }

    // ---- the expression line ---------------------------------------------------------------

    /** The first n characters, without the oldest of them if more must fit after; no NUL yet. */
    method MakeRoom(n: nat, more: nat) returns (kept: nat)
      requires n <= len <= MAX_EXPR && chars.Length == MAX_EXPR + 1 && more <= MAX_EXPR
      modifies chars
      ensures kept + more <= MAX_EXPR && kept <= n && chars[..kept] == old(chars[n - kept..n])
      ensures kept == if n + more > MAX_EXPR then MAX_EXPR - more else n
    {
      kept := n;
      if n + more > MAX_EXPR {
        var overflow := n + more - MAX_EXPR;
        if overflow >= n {
          kept := 0;
        } else {
          MoveChars(chars, 0, overflow, n - overflow);
          kept := n - overflow;
        }
      }
    }

    method Close(n: nat, ghost text: string)
      requires n < chars.Length && chars[..n] == text && '\0' !in text
      modifies this, chars
      ensures Valid() && Str() == text
    {
      len := n;
      chars[len] := '\0';
      assert chars[..n] == text;
    }

    /** The first n characters and a text after them, as much of the end as fits. */
    method Replace(n: nat, text: string)
      requires Valid() && n <= len && chars.Length == MAX_EXPR + 1 && |text| <= MAX_EXPR && '\0' !in text
      modifies this, chars
      ensures Valid() && Str() == Tail(old(Str())[..n] + text)
    {
      ghost var s := chars[..len];
      var kept := MakeRoom(n, |text|);
      TailSplit(s, n, text, kept);
      assert chars[..kept] == s[n - kept..n];
      CopyChars(chars, kept, text);
      NoNulInside(s, n - kept, n, text);
      Close(kept + |text|, s[n - kept..n] + text);
    }

    /** expr_append_text; whether old characters had to go. */
    method AppendTail(text: string) returns (overflowed: bool)
      requires Valid() && chars.Length == MAX_EXPR + 1 && '\0' !in text
      modifies this, chars
      ensures Valid() && Str() == Tail(old(Str()) + text) && overflowed == Overflows(old(Str()), text)
    {
      if text == "" {
        assert old(Str()) + text == old(Str());
        return false;
      }
      var t := if |text| > MAX_EXPR then text[|text| - MAX_EXPR..] else text;
      overflowed := len + |t| > MAX_EXPR;
      assert Tail(old(Str()) + t) == Tail(old(Str()) + text);
      assert old(Str())[..len] == old(Str());
      Replace(len, t);
    }

    /** expr_set. */
    method SetTail(text: string)
      requires chars.Length == MAX_EXPR + 1 && '\0' !in text
      modifies this, chars
      ensures Valid() && Str() == Tail(text)
    {
      Load(if |text| > MAX_EXPR then text[|text| - MAX_EXPR..] else text);
    }

    /** expr_wrap_span: assembled in a scratch buffer, then its end copied back. */
    method WrapFrom(start: nat, prefix: string, suffix: string)
      requires Valid() && start < len && chars.Length == MAX_EXPR + 1
      requires |prefix| + |suffix| <= EXPR_TMP - MAX_EXPR && '\0' !in prefix && '\0' !in suffix
      modifies this, chars
      ensures Valid() && Str() == Tail(old(Str())[..start] + prefix + old(Str())[start..] + suffix)
    {
      ghost var s := chars[..len];
      var temp := new char[EXPR_TMP];
      CopyChars(temp, 0, chars[..start]);
      var n := start;
      CopyChars(temp, n, prefix);
      n := n + |prefix|;
      assert temp[..n] == s[..start] + prefix;
      CopyChars(temp, n, chars[start..len]);
      n := n + (len - start);
      assert temp[..n] == s[..start] + prefix + s[start..];
      CopyChars(temp, n, suffix);
      n := n + |suffix|;
      assert temp[..n] == s[..start] + prefix + s[start..] + suffix;
      SetTail(temp[..n]);
    }
  }
}
