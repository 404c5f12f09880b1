/**
  Dynamic strings: replacing every occurrence of a substring in place, and comparing without regard
  to letter case. `text` holds the characters before the terminator.
 */
module DynStrings {

  predicate OccursAt(s: string, find: string, i: nat) {
    i + |find| <= |s| && s[i..i + |find|] == find
  }

  /** Left to right, every occurrence of `find` that does not overlap an earlier one. */
  function ReplaceAll(s: string, find: string, replace: string): string
    requires find != ""
    decreases |s|
  {
    if s == "" then ""
    else if OccursAt(s, find, 0) then replace + ReplaceAll(s[|find|..], find, replace)
    else [s[0]] + ReplaceAll(s[1..], find, replace)
  }

  /** How many replacements there are. */
  function Count(s: string, find: string): nat
    requires find != ""
    decreases |s|
  {
    if s == "" then 0
    else if OccursAt(s, find, 0) then 1 + Count(s[|find|..], find)
    else Count(s[1..], find)
  }

  lemma {:induction false} ReplacedLength(s: string, find: string, replace: string)
    requires find != ""
    ensures |ReplaceAll(s, find, replace)| == |s| + Count(s, find) * (|replace| - |find|)
    decreases |s|
  {
    if s == "" {
    } else if OccursAt(s, find, 0) {
      var rest := s[|find|..];
      ReplacedLength(rest, find, replace);
      OneMore(Count(rest, find), |replace| - |find|);
      assert |ReplaceAll(s, find, replace)| == |replace| + |ReplaceAll(rest, find, replace)| by {
        hide Count;
      }
    } else {
      ReplacedLength(s[1..], find, replace);
    }
  }

  lemma OneMore(n: nat, d: int)
    ensures (1 + n) * d == d + n * d
  {
  }

  lemma OccursBehind(s: string, find: string, i: nat)
    requires s != ""
    ensures OccursAt(s[1..], find, i) <==> OccursAt(s, find, i + 1)
  {
    if i + |find| <= |s[1..]| {
      assert s[1..][i..i + |find|] == s[i + 1..i + 1 + |find|];
    }
  }

  lemma SkipsOne(s: string, find: string, replace: string)
    requires find != "" && s != "" && !OccursAt(s, find, 0)
    ensures ReplaceAll(s, find, replace) == [s[0]] + ReplaceAll(s[1..], find, replace)
    ensures Count(s, find) == Count(s[1..], find)
  {
    hide OccursAt;
  }

  lemma Regrouped(s: string, n: nat, rest: string)
    requires 0 < n <= |s|
    ensures s[1..][n - 1..] == s[n..] && [s[0]] + (s[1..][..n - 1] + rest) == s[..n] + rest
  {
    assert [s[0]] + s[1..][..n - 1] == s[..n];
  }

  /** Characters where no occurrence starts are kept. */
  lemma {:induction false} ReplaceSkips(s: string, find: string, replace: string, n: nat)
    requires find != "" && n <= |s|
    requires forall i :: 0 <= i < n ==> !OccursAt(s, find, i)
    ensures ReplaceAll(s, find, replace) == s[..n] + ReplaceAll(s[n..], find, replace)
    ensures Count(s, find) == Count(s[n..], find)
    decreases n
  {
    hide OccursAt, ReplaceAll, Count;
    if n == 0 {
      assert s[0..] == s;
    } else {
      forall i: nat | i < n - 1
        ensures !OccursAt(s[1..], find, i)
      {
        OccursBehind(s, find, i);
      }
      SkipsOne(s, find, replace);
      ReplaceSkips(s[1..], find, replace, n - 1);
      Regrouped(s, n, ReplaceAll(s[n..], find, replace));
    }
  }

  predicate FirstAt(s: string, find: string, n: nat) {
    OccursAt(s, find, n) && forall i :: 0 <= i < n ==> !OccursAt(s, find, i)
  }

  predicate NoneIn(s: string, find: string) {
    forall i :: 0 <= i < |s| ==> !OccursAt(s, find, i)
  }

  /** One step of every loop of the replacement: up to and over the next occurrence. */
  lemma ReplaceStep(s: string, find: string, replace: string, n: nat)
    requires find != "" && FirstAt(s, find, n)
    ensures n + |find| <= |s|
    ensures ReplaceAll(s, find, replace) == s[..n] + replace + ReplaceAll(s[n + |find|..], find, replace)
    ensures Count(s, find) == 1 + Count(s[n + |find|..], find)
  {
    hide ReplaceAll, Count;
    var rest := s[n..];
    ReplaceSkips(s, find, replace, n);
    assert rest[0..|find|] == s[n..n + |find|];
    ReplaceFront(rest, find, replace);
    assert rest[|find|..] == s[n + |find|..];
    var after := ReplaceAll(rest[|find|..], find, replace);
    assert s[..n] + (replace + after) == s[..n] + replace + after;
  }

  lemma ReplaceFront(s: string, find: string, replace: string)
    requires find != "" && OccursAt(s, find, 0)
    ensures ReplaceAll(s, find, replace) == replace + ReplaceAll(s[|find|..], find, replace)
    ensures Count(s, find) == 1 + Count(s[|find|..], find)
  {
  }

  /** Nothing is left to replace. */
  lemma ReplaceEnds(s: string, find: string, replace: string)
    requires find != "" && NoneIn(s, find)
    ensures ReplaceAll(s, find, replace) == s && Count(s, find) == 0
  {
    ReplaceSkips(s, find, replace, |s|);
    assert s[..|s|] == s && s[|s|..] == "";
  }

  /** The text is replaced up to `temp`, where `count` replacements have been made. */
  ghost predicate Halfway(was: string, find: string, replace: string, text: string, temp: nat, count: nat) {
    && find != "" && temp <= |text|
    && ReplaceAll(was, find, replace) == text[..temp] + ReplaceAll(text[temp..], find, replace)
    && Count(was, find) == count + Count(text[temp..], find)
  }

  lemma Halves(a: string, b: string)
    ensures (a + b)[..|a|] == a && (a + b)[|a|..] == b
  {
  }

  lemma HalfwayStarts(was: string, find: string, replace: string)
    requires find != ""
    ensures Halfway(was, find, replace, was, 0, 0)
  {
    assert was[0..] == was && was[..0] == "";
  }

  lemma HalfwayEnds(was: string, find: string, replace: string, text: string, temp: nat, count: nat)
    requires Halfway(was, find, replace, text, temp, count) && NoneIn(text[temp..], find)
    ensures ReplaceAll(was, find, replace) == text && Count(was, find) == count
  {
    hide ReplaceAll, Count, NoneIn;
    ReplaceEnds(text[temp..], find, replace);
    assert text[..temp] + text[temp..] == text;
  }

  /** Putting the replacement in the place of the next occurrence. */
  lemma HalfwayStep(was: string, find: string, replace: string, text: string, temp: nat, count: nat, at: nat)
    requires Halfway(was, find, replace, text, temp, count) && FirstAt(text[temp..], find, at)
    ensures temp + at + |find| <= |text|
    ensures var after := text[..temp + at] + replace + text[temp + at + |find|..];
            Halfway(was, find, replace, after, temp + at + |replace|, count + 1)
  {
    hide ReplaceAll, Count, FirstAt;
    var rest := text[temp..];
    ReplaceStep(rest, find, replace, at);
    var front, later := text[..temp + at] + replace, rest[at + |find|..];
    assert text[temp + at + |find|..] == later;
    Halves(front, later);
    assert text[..temp + at] == text[..temp] + rest[..at];
    var more := ReplaceAll(later, find, replace);
    assert text[..temp] + (rest[..at] + replace + more) == text[..temp] + rest[..at] + replace + more;
  }

  /** Whether the characters from `i` on are `find`, as far as the first `k` of them go. */
  predicate AgreesAt(s: string, find: string, i: nat, k: nat) {
    k <= |find| && i + k <= |s| && s[i..i + k] == find[..k]
  }

  lemma AgreesStep(s: string, find: string, i: nat, k: nat)
    requires AgreesAt(s, find, i, k) && k < |find|
    ensures i + k < |s| && s[i + k] == find[k] ==> AgreesAt(s, find, i, k + 1)
    ensures i + k == |s| || s[i + k] != find[k] ==> !OccursAt(s, find, i)
  {
    if i + k < |s| && s[i + k] == find[k] {
      assert s[i..i + k + 1] == s[i..i + k] + [s[i + k]];
      assert find[..k + 1] == find[..k] + [find[k]];
    }
  }

  // -------- Memory --------

  /** Memory with `src` at a position. */
  function Patched(d: seq<char>, at: nat, src: seq<char>): (e: seq<char>)
    requires at + |src| <= |d|
    ensures |e| == |d|
  {
    d[..at] + src + d[at + |src|..]
  }

  /** The text of `n` characters that the terminator ends. */
  predicate Terminated(d: seq<char>, n: nat) {
    n < |d| && d[n] == '\0' && '\0' !in d[..n]
  }

  lemma PatchedParts(d: seq<char>, at: nat, src: seq<char>)
    requires at + |src| <= |d|
    ensures var e := Patched(d, at, src);
            e[..at] == d[..at] && e[at..at + |src|] == src && e[at + |src|..] == d[at + |src|..]
  {
  }

  /** Moving the tail with its terminator and copying the replacement into the gap. */
  lemma TailMoved(d: seq<char>, n: nat, at: nat, end: nat, replace: string)
    requires Terminated(d, n) && at <= end <= n && at + |replace| + (n - end) < |d| && '\0' !in replace
    ensures var m := at + |replace| + (n - end); var e := Patched(Patched(d, at + |replace|, d[end..n + 1]), at, replace);
            Terminated(e, m) && e[..m] == d[..n][..at] + replace + d[..n][end..]
  {
    hide Patched;
    var m, moved := at + |replace| + (n - end), Patched(d, at + |replace|, d[end..n + 1]);
    PatchedParts(d, at + |replace|, d[end..n + 1]);
    PatchedParts(moved, at, replace);
    var e := Patched(moved, at, replace);
    var k := n + 1 - end;
    assert moved[at + |replace|..][..k] == moved[at + |replace|..at + |replace| + k] == d[end..n + 1];
    assert e[at + |replace|..m + 1] == e[at + |replace|..][..k];
    NewText(d, e, n, m, at, end, replace);
  }

  lemma NewText(d: seq<char>, e: seq<char>, n: nat, m: nat, at: nat, end: nat, replace: string)
    requires Terminated(d, n) && at <= end <= n && m == at + |replace| + (n - end) < |e| && '\0' !in replace
    requires e[..at] == d[..at] && e[at..at + |replace|] == replace && e[at + |replace|..m + 1] == d[end..n + 1]
    ensures Terminated(e, m) && e[..m] == d[..n][..at] + replace + d[..n][end..]
  {
    var tail := e[at + |replace|..m + 1];
    assert tail[n - end] == d[n] && e[m] == tail[n - end];
    assert e[..m] == e[..at] + e[at..at + |replace|] + tail[..n - end];
    assert d[end..n + 1][..n - end] == d[..n][end..];
  }

  /** A replacement at the very end, copied with a terminator of its own. */
  lemma EndReplaced(d: seq<char>, n: nat, at: nat, replace: string)
    requires Terminated(d, n) && at <= n && at + |replace| < |d| && '\0' !in replace
    ensures var m := at + |replace|; var e := Patched(d, at, replace + ['\0']);
            Terminated(e, m) && e[..m] == d[..n][..at] + replace + d[..n][n..]
  {
    hide Patched;
    PatchedParts(d, at, replace + ['\0']);
    var e := Patched(d, at, replace + ['\0']);
    var m := at + |replace|;
    assert e[at..m + 1][..|replace|] == replace && e[at..m + 1][|replace|] == '\0';
    assert e[at..m] == replace && e[m..m + 1] == ['\0'] == d[n..n + 1];
    NewText(d, e, n, m, at, n, replace);
  }

  lemma TerminatedAt(d: seq<char>, n: nat)
    requires Terminated(d, n)
    ensures n < |d| && d[n] == '\0'
  {
  }

  lemma NothingPatched(d: seq<char>, at: nat)
    requires at <= |d|
    ensures Patched(d, at, []) == d
  {
  }

  /** A replacement of the same length. */
  lemma Exchanged(d: seq<char>, n: nat, at: nat, replace: string)
    requires Terminated(d, n) && at + |replace| <= n && '\0' !in replace
    ensures var e := Patched(d, at, replace);
            Terminated(e, n) && e[..n] == d[..n][..at] + replace + d[..n][at + |replace|..]
  {
    hide Patched;
    PatchedParts(d, at, replace);
    var e := Patched(d, at, replace);
    assert e[at + |replace|..][..n + 1 - (at + |replace|)] == d[at + |replace|..][..n + 1 - (at + |replace|)];
    NewText(d, e, n, n, at, at + |replace|, replace);
  }

  lemma Negated(count: int, d: int)
    ensures count * (0 - d) == 0 - d * count
  {
  }

  lemma ReplaceNothing(find: string, replace: string)
    requires find != ""
    ensures ReplaceAll("", find, replace) == ""
  {
  }

  lemma NotNegative(a: nat, b: nat)
    ensures a * b >= 0
  {
  }

  /** Text that grows never gets longer than it is in the end. */
  lemma HalfwayFits(was: string, find: string, replace: string, text: string, temp: nat, count: nat, at: nat)
    requires Halfway(was, find, replace, text, temp, count) && FirstAt(text[temp..], find, at) && |find| <= |replace|
    ensures |text| - |find| + |replace| <= |ReplaceAll(was, find, replace)|
  {
    hide ReplaceAll, Count, FirstAt;
    var rest := text[temp..];
    ReplaceStep(rest, find, replace, at);
    var later := rest[at + |find|..];
    ReplacedLength(later, find, replace);
    NotNegative(Count(later, find), |replace| - |find|);
  }

  class Dstr {
    var chars: array<char>
    var len: nat

    ghost predicate Holds(n: nat)
      reads this, chars
    {
      Terminated(chars[..], n)
    }

    /** An empty text needs no memory. */
    ghost predicate Valid()
      reads this, chars
    {
      if chars.Length == 0 then len == 0 else Holds(len)
    }

    ghost function Text(): string
      reads this, chars
      requires Valid()
    {
      chars[..len]
    }

    constructor (text: string)
      requires '\0' !in text
      ensures Valid() && Text() == text && fresh(chars)
    {
      var n := |text|;
      var memory := new char[if n == 0 then 0 else n + 1];
      forall i | 0 <= i < memory.Length {
        memory[i] := if i < n then text[i] else '\0';
      }
      chars, len := memory, n;
      new;
      assert chars[..n] == text;
    }

    /** What a reader of the memory sees. */
    method Read() returns (text: string)
      requires Valid()
      ensures text == Text()
    {
      text := chars[..len];
    }

    /** Where `find` first occurs in the text behind `from`. */
    method Strstr(from: nat, find: string, ghost n: nat) returns (found: bool, at: nat)
      requires Holds(n) && from <= n && find != "" && '\0' !in find
      ensures if found then FirstAt(chars[from..n], find, at) else NoneIn(chars[from..n], find)
    {
      at := 0;
      while chars[from + at] != '\0'
        invariant from + at <= n
        invariant forall i :: 0 <= i < at ==> !OccursAt(chars[from..n], find, i)
        decreases n - at
      {
        var k := 0;
        while k < |find| && chars[from + at + k] == find[k]
          invariant AgreesAt(chars[from..n], find, at, k)
          decreases |find| - k
        {
          AgreesStep(chars[from..n], find, at, k);
          k := k + 1;
        }
        if k == |find| {
          return true, at;
        }
        AgreesStep(chars[from..n], find, at, k);
        at := at + 1;
      }
      found := false;
    }

    method Strlen(from: nat, ghost n: nat) returns (k: nat)
      requires Holds(n) && from <= n
      ensures from + k == n
    {
      k := 0;
      while chars[from + k] != '\0'
        invariant from + k <= n
        decreases n - k
      {
        k := k + 1;
      }
    }

    method Memmove(to: nat, from: nat, k: nat)
      requires to + k <= chars.Length && from + k <= chars.Length
      modifies chars
      ensures chars[..] == Patched(old(chars[..]), to, old(chars[..])[from..from + k])
    {
      forall i | 0 <= i < k {
        chars[to + i] := chars[from + i];
      }
    }

    method Memcpy(to: nat, src: string)
      requires to + |src| <= chars.Length
      modifies chars
      ensures chars[..] == Patched(old(chars[..]), to, src)
    {
      forall i | 0 <= i < |src| {
        chars[to + i] := src[i];
      }
    }

    /** Replaces what stands at `at` by a text of another length: the tail is moved, then the text is copied. */
    method Substitute(at: nat, findLen: nat, replace: string, ghost n: nat)
      requires Holds(n) && at + findLen <= n && at + |replace| + (n - (at + findLen)) < chars.Length && '\0' !in replace
      modifies chars
      ensures var m := at + |replace| + (n - (at + findLen));
              Holds(m) && chars[..m] == old(chars[..n])[..at] + replace + old(chars[..n])[at + findLen..]
    {
      hide Patched, Terminated;
      ghost var d := chars[..];
      TerminatedAt(d, n);
      assert d[..n] == chars[..n];
      var end := at + findLen;
      var endLen := Strlen(end, n);
      if endLen > 0 {
        TailMoved(d, n, at, end, replace);
        Memmove(at + |replace|, end, endLen + 1);
        if |replace| > 0 {
          Memcpy(at, replace);
        } else {
          NothingPatched(chars[..], at);
        }
      } else {
        EndReplaced(d, n, at, replace);
        Memcpy(at, replace + ['\0']);
      }
      ghost var m := at + |replace| + (n - end);
      TerminatedAt(chars[..], m);
      assert chars[..][..m] == chars[..m];
    }

    method EnsureCapacity(size: nat)
      requires Valid()
      modifies `chars
      ensures Valid() && Text() == old(Text()) && chars.Length >= size
      ensures chars == old(chars) || fresh(chars)
      ensures len > 0 ==> old(chars).Length > 0
    {
      if size <= chars.Length {
        return;
      }
      var capacity := if chars.Length == 0 then size else chars.Length * 2;
      if size > capacity {
        capacity := size;
      }
      var larger := new char[capacity](_ => '\0');
      forall i | 0 <= i < chars.Length {
        larger[i] := chars[i];
      }
      ghost var text := chars[..len];
      chars := larger;
      assert chars[..len] == text;
    }

    method Replace(find: string, replace: string)
      requires Valid() && find != "" && '\0' !in find && '\0' !in replace
      modifies this, chars
      ensures Valid() && (chars == old(chars) || fresh(chars))
      ensures Text() == ReplaceAll(old(Text()), find, replace)
    {
      hide ReplaceAll, Count;
      if len == 0 || chars[0] == '\0' {
        ReplaceNothing(find, replace);
        assert Text() == "";
        return;
      }
      if |replace| < |find| {
        ReplaceByShorter(find, replace);
      } else if |replace| > |find| {
        ReplaceByLonger(find, replace);
      } else {
        ReplacedLength(Text(), find, replace);
        Exchange(find, replace, len);
      }
    }

    method ReplaceByShorter(find: string, replace: string)
      requires Holds(len) && |replace| < |find| && '\0' !in find && '\0' !in replace
      modifies `len, chars
      ensures Holds(len) && chars[..len] == ReplaceAll(old(chars[..len]), find, replace)
    {
      hide ReplaceAll, Count, Terminated;
      TerminatedAt(chars[..], len);
      ReplacedLength(chars[..len], find, replace);
      var count := Shrink(find, replace);
      if count > 0 {
        Negated(count, |find| - |replace|);
        len := len - (|find| - |replace|) * count;
      }
    }

    method ReplaceByLonger(find: string, replace: string)
      requires Valid() && len > 0 && |replace| > |find| && find != "" && '\0' !in find && '\0' !in replace
      modifies this, chars
      ensures Valid() && (chars == old(chars) || fresh(chars))
      ensures Text() == ReplaceAll(old(Text()), find, replace)
    {
      hide ReplaceAll, Count, Terminated;
      TerminatedAt(chars[..], len);
      ReplacedLength(chars[..len], find, replace);
      var count := CountAll(find);
      if count == 0 {
        ReplaceEnds(chars[..len], find, replace);
        return;
      }
      EnsureCapacity(len + (|replace| - |find|) * count + 1);
      ghost var n := len;
      len := len + (|replace| - |find|) * count;
      Expand(find, replace, n);
    }

    /** Counts the occurrences before the memory grows. */
    method CountAll(find: string) returns (count: nat)
      requires Holds(len) && find != "" && '\0' !in find
      ensures count == Count(chars[..len], find) && (count == 0 ==> NoneIn(chars[..len], find))
    {
      hide ReplaceAll, Count, NoneIn, FirstAt;
      count := 0;
      var temp := 0;
      assert chars[0..len] == chars[..len];
      while true
        invariant temp <= len
        invariant count + Count(chars[temp..len], find) == Count(chars[..len], find)
        invariant count == 0 ==> temp == 0
        decreases len - temp
      {
        var found, at := Strstr(temp, find, len);
        ghost var rest := chars[temp..len];
        if !found {
          ReplaceEnds(rest, find, "");
          return;
        }
        ReplaceStep(rest, find, "", at);
        assert rest[at + |find|..] == chars[temp + at + |find|..len];
        temp := temp + at + |find|;
        count := count + 1;
      }
    }

    /** A shorter text: the terminator moves to the front with every occurrence. */
    method Shrink(find: string, replace: string) returns (count: nat)
      requires Holds(len) && |replace| < |find| && '\0' !in find && '\0' !in replace
      modifies chars
      ensures count == Count(old(chars[..len]), find)
      ensures var after := ReplaceAll(old(chars[..len]), find, replace); Holds(|after|) && chars[..|after|] == after
    {
      hide ReplaceAll, Count, NoneIn, FirstAt, Terminated, Halfway;
      count := 0;
      var temp := 0;
      TerminatedAt(chars[..], len);
      ghost var was := chars[..len];
      ghost var n: nat := len;
      HalfwayStarts(was, find, replace);
      while true
        invariant 0 <= temp <= n < chars.Length && Holds(n)
        invariant Halfway(was, find, replace, chars[..n], temp, count)
        decreases n - temp
      {
        assert chars[temp..n] == chars[..n][temp..];
        var found, at := Strstr(temp, find, n);
        if !found {
          HalfwayEnds(was, find, replace, chars[..n], temp, count);
          return;
        }
        HalfwayStep(was, find, replace, chars[..n], temp, count, at);
        Substitute(temp + at, |find|, replace, n);
        n := temp + at + |replace| + (n - (temp + at + |find|));
        TerminatedAt(chars[..], n);
        temp := temp + at + |replace|;
        count := count + 1;
      }
    }

    /** A longer text, in memory that is large enough; the occurrences were counted. */
    method Expand(find: string, replace: string, ghost n0: nat)
      requires Holds(n0) && |find| < |replace| && find != "" && '\0' !in find && '\0' !in replace
      requires |ReplaceAll(chars[..n0], find, replace)| < chars.Length
      modifies chars
      ensures var after := ReplaceAll(old(chars[..n0]), find, replace); Holds(|after|) && chars[..|after|] == after
    {
      hide ReplaceAll, Count, NoneIn, FirstAt, Terminated, Halfway;
      var temp := 0;
      TerminatedAt(chars[..], n0);
      ghost var was := chars[..n0];
      ghost var n: nat, count: nat := n0, 0;
      HalfwayStarts(was, find, replace);
      while true
        invariant 0 <= temp <= n < chars.Length && Holds(n)
        invariant Halfway(was, find, replace, chars[..n], temp, count)
        decreases n - temp
      {
        assert chars[temp..n] == chars[..n][temp..];
        var found, at := Strstr(temp, find, n);
        if !found {
          HalfwayEnds(was, find, replace, chars[..n], temp, count);
          return;
        }
        HalfwayStep(was, find, replace, chars[..n], temp, count, at);
        HalfwayFits(was, find, replace, chars[..n], temp, count, at);
        Substitute(temp + at, |find|, replace, n);
        n := temp + at + |replace| + (n - (temp + at + |find|));
        TerminatedAt(chars[..], n);
        temp := temp + at + |replace|;
        count := count + 1;
      }
    }

    /** A text of the same length is copied over each occurrence; nothing moves. */
    method Exchange(find: string, replace: string, ghost n: nat)
      requires Holds(n) && |find| == |replace| && find != "" && '\0' !in find && '\0' !in replace
      modifies chars
      ensures Holds(n) && chars[..n] == ReplaceAll(old(chars[..n]), find, replace)
    {
      hide ReplaceAll, Count, NoneIn, FirstAt, Terminated, Halfway;
      var temp := 0;
      TerminatedAt(chars[..], n);
      ghost var was := chars[..n];
      ghost var count: nat := 0;
      HalfwayStarts(was, find, replace);
      while true
        invariant 0 <= temp <= n < chars.Length && Holds(n)
        invariant Halfway(was, find, replace, chars[..n], temp, count)
        decreases n - temp
      {
        assert chars[temp..n] == chars[..n][temp..];
        var found, at := Strstr(temp, find, n);
        if !found {
          HalfwayEnds(was, find, replace, chars[..n], temp, count);
          return;
        }
        HalfwayStep(was, find, replace, chars[..n], temp, count, at);
        Overwrite(temp + at, replace, n);
        temp := temp + at + |replace|;
        count := count + 1;
      }
    }

    method Overwrite(at: nat, replace: string, ghost n: nat)
      requires Holds(n) && at + |replace| <= n && '\0' !in replace
      modifies chars
      ensures Holds(n)
      ensures chars[..n] == old(chars[..n])[..at] + replace + old(chars[..n])[at + |replace|..]
    {
      hide Patched, Terminated;
      ghost var d := chars[..];
      TerminatedAt(d, n);
      assert d[..n] == chars[..n];
      Exchanged(d, n, at, replace);
      Memcpy(at, replace);
      assert chars[..][..n] == chars[..n];
    }
  }

  // -------- Comparing without regard to letter case --------

  function ToUpper(c: char): char {
    if 'a' <= c <= 'z' then 'A' + (c - 'a') else c
  }

  /** The codes 97 to 122 of ASCII become 65 to 90, and nothing else changes. */
  lemma CapitalLetters(c: char)
    ensures ToUpper(c) as int == if 97 <= c as int <= 122 then c as int - 32 else c as int
  {
  }

  function Fold(s: string): (r: string)
    ensures |r| == |s| && forall i :: 0 <= i < |s| ==> r[i] == ToUpper(s[i])
  {
    if s == "" then "" else [ToUpper(s[0])] + Fold(s[1..])
  }

  /** The value of an octet as the signed character of the source. */
  function Signed(c: char): int {
    if 128 <= c as int < 256 then c as int - 256 else c as int
  }

  /**
    The rank of a folded character; that of the terminator is zero. A zero inside a string, which does not
    occur in the source, is told apart from the terminator.
   */
  function At(s: string, i: nat): int {
    if i < |s| then 2 * Signed(ToUpper(s[i])) + (if s[i] == '\0' then 1 else 0) else 0
  }

  /** Characters but small letters are in the order of their codes, octets from 128 on in front of ASCII. */
  lemma OrderOfCharacters(a: string, i: nat, b: string, j: nat)
    requires i < |a| && j < |b| && 0 < a[i] as int < 256 && 0 < b[j] as int < 256
    requires !(97 <= a[i] as int <= 122) && !(97 <= b[j] as int <= 122)
    ensures At(a, i) < At(b, j) <==>
            if (a[i] as int < 128) == (b[j] as int < 128) then a[i] < b[j] else a[i] as int >= 128
  {
  }

  function Prefix(s: string, n: nat): string {
    if n < |s| then s[..n] else s
  }

  lemma SameFold(a: string, b: string)
    requires |a| == |b| && forall k :: 0 <= k < |a| ==> ToUpper(a[k]) == ToUpper(b[k])
    ensures Fold(a) == Fold(b)
  {
  }

  lemma FoldsDiffer(a: string, b: string, n: nat, i: nat)
    requires i < n && i <= |a| && i <= |b| && At(a, i) != At(b, i)
    ensures Fold(Prefix(a, n)) != Fold(Prefix(b, n))
  {
    if i < |a| && i < |b| {
      assert Fold(Prefix(a, n))[i] != Fold(Prefix(b, n))[i];
    } else {
      assert |Fold(Prefix(a, n))| != |Fold(Prefix(b, n))|;
    }
  }

  /** Compares up to the first difference. */
  method AstrCmpI(a: string, b: string) returns (r: int)
    ensures -1 <= r <= 1 && (r == 0 <==> Fold(a) == Fold(b))
    ensures r != 0 ==> exists i :: 0 <= i <= |a| && i <= |b| && Fold(a[..i]) == Fold(b[..i])
                                   && if r < 0 then At(a, i) < At(b, i) else At(a, i) > At(b, i)
  {
    hide Fold;
    var i := 0;
    while true
      invariant i <= |a| && i <= |b|
      invariant forall k :: 0 <= k < i ==> ToUpper(a[k]) == ToUpper(b[k])
      decreases |a| - i
    {
      if At(a, i) != At(b, i) {
        SameFold(a[..i], b[..i]);
        FoldsDiffer(a, b, |a| + |b| + 1, i);
        return if At(a, i) < At(b, i) then -1 else 1;
      }
      if i == |a| || i == |b| {
        break;
      }
      i := i + 1;
    }
    SameFold(a, b);
    r := 0;
  }

  /** Compares no more than `n` characters. */
  method AstrCmpIN(a: string, b: string, n: nat) returns (r: int)
    ensures -1 <= r <= 1 && (r == 0 <==> Fold(Prefix(a, n)) == Fold(Prefix(b, n)))
  {
    hide Fold;
    if n == 0 {
      SameFold(Prefix(a, n), Prefix(b, n));
      return 0;
    }
    var i := 0;
    while true
      invariant i < n && i <= |a| && i <= |b|
      invariant forall k :: 0 <= k < i ==> ToUpper(a[k]) == ToUpper(b[k])
      decreases |a| - i
    {
      if At(a, i) != At(b, i) {
        FoldsDiffer(a, b, n, i);
        return if At(a, i) < At(b, i) then -1 else 1;
      }
      if i == |a| || i == |b| || i + 1 == n {
        break;
      }
      i := i + 1;
    }
    SameFold(Prefix(a, n), Prefix(b, n));
    r := 0;
  }

  /** Two strings a reader may not tell apart. */
  predicate Same(a: string, b: string) {
    Fold(a) == Fold(b)
  }
}
