// NUL-terminated byte strings and the routines of string.c that the path code rests on:
// strcmp, strdup and the re-entrant tokenizer strtok_r.

module CString {
  type byte = x: int | 0 <= x < 256

  // The text of a C string: any bytes but NUL.
  type text = s: seq<byte> | 0 !in s

  const SLASH: byte := 47
  const DELIM: text := [SLASH]

  // ---------- C strings inside buffers ----------

  ghost predicate HasNul(b: seq<byte>, i: nat) {
    exists e :: i <= e < |b| && b[e] == 0
  }

  // Index of the first NUL at or after i.
  ghost function Nul(b: seq<byte>, i: nat): (e: nat)
    requires HasNul(b, i)
    ensures i <= e < |b| && b[e] == 0
    ensures forall k :: i <= k < e ==> b[k] != 0
    decreases |b| - i
  {
    if b[i] == 0 then i else Nul(b, i + 1)
  }

  // The text that starts at i.
  ghost function TextAt(b: seq<byte>, i: nat): text
    requires HasNul(b, i)
  {
    b[i..Nul(b, i)]
  }

  lemma TextIs(b: seq<byte>, i: nat, e: nat)
    requires i <= e < |b| && b[e] == 0 && forall k :: i <= k < e ==> b[k] != 0
    ensures HasNul(b, i) && Nul(b, i) == e && TextAt(b, i) == b[i..e]
  {
  }

  // strcmp: the loop stops at the first difference or at the NUL of s1; the sign of the byte
  // difference is the lexicographic order of the two texts.
  predicate Less(a: seq<byte>, b: seq<byte>) {
    if b == [] then false
    else if a == [] then true
    else a[0] < b[0] || (a[0] == b[0] && Less(a[1..], b[1..]))
  }

  lemma {:induction false} LessAfterPrefix(a: seq<byte>, b: seq<byte>, k: nat)
    requires k <= |a| && k <= |b| && a[..k] == b[..k]
    ensures Less(a, b) == Less(a[k..], b[k..])
    ensures a == b <==> a[k..] == b[k..]
    decreases k
  {
    if k == 0 {
      assert a[k..] == a && b[k..] == b;
    } else {
      assert a[0] == a[..k][0] == b[..k][0] == b[0];
      assert a[1..][..k - 1] == a[..k][1..] == b[1..][..k - 1];
      LessAfterPrefix(a[1..], b[1..], k - 1);
      assert a[1..][k - 1..] == a[k..] && b[1..][k - 1..] == b[k..];
      assert a == [a[0]] + a[1..] && b == [b[0]] + b[1..];
    }
  }

  // The text t, with its NUL, stands at i.
  predicate Holds(b: seq<byte>, i: nat, t: seq<byte>) {
    i + |t| < |b| && b[i..i + |t|] == t && b[i + |t|] == 0
  }

  // From i to the end of the buffer stands t, or the start of it: a comparison with t leaves the buffer.
  predicate Exhausts(b: seq<byte>, i: nat, t: seq<byte>) {
    i >= |b| || (|b| - i <= |t| && b[i..] == t[..|b| - i])
  }

  lemma NulStops(b: seq<byte>, i: nat, t: text)
    requires HasNul(b, i)
    ensures !Exhausts(b, i, t)
  {
    var e := Nul(b, i);
    assert b[i..][e - i] == 0;
  }

  lemma HoldsText(b: seq<byte>, i: nat, t: text)
    requires HasNul(b, i)
    ensures Holds(b, i, t) <==> TextAt(b, i) == t
  {
    if Holds(b, i, t) {
      assert forall k :: i <= k < i + |t| ==> b[k] == t[k - i];
      TextIs(b, i, i + |t|);
    }
  }

  lemma Used(b: seq<byte>, i: nat, t: text, k: nat)
    requires i + k <= |b| && k <= |t| && forall j :: 0 <= j < k ==> b[i + j] == t[j]
    ensures i + k == |b| ==> Exhausts(b, i, t)
  {
    assert i + k == |b| ==> b[i..] == t[..k];
  }

  // s1 need not end inside its buffer when it differs from s2 before.
  method Strcmp(s1: seq<byte>, i1: nat, s2: seq<byte>, i2: nat) returns (r: int)
    requires HasNul(s2, i2) && !Exhausts(s1, i1, TextAt(s2, i2))
    ensures r == 0 <==> Holds(s1, i1, TextAt(s2, i2))
    ensures HasNul(s1, i1) ==> (r == 0 <==> TextAt(s1, i1) == TextAt(s2, i2))
    ensures HasNul(s1, i1) ==> (r < 0 <==> Less(TextAt(s1, i1), TextAt(s2, i2)))
  {
    ghost var t := TextAt(s2, i2);
    var k := 0;
    while s1[i1 + k] != 0 && s1[i1 + k] == s2[i2 + k]
      invariant i2 + k <= Nul(s2, i2) && i1 + k < |s1| && (HasNul(s1, i1) ==> i1 + k <= Nul(s1, i1))
      invariant forall j :: 0 <= j < k ==> s1[i1 + j] == t[j]
      decreases |s1| - k
    {
      k := k + 1;
      Used(s1, i1, t, k);
    }
    assert forall j :: 0 <= j < k ==> t[j] == s1[i1..i1 + k][j];
    assert t[..k] == s1[i1..i1 + k];
    if HasNul(s1, i1) {
      ghost var a := TextAt(s1, i1);
      assert a[..k] == s1[i1..i1 + k];
      LessAfterPrefix(a, t, k);
      HoldsText(s1, i1, t);
    } else {
      assert Holds(s1, i1, t) ==> HasNul(s1, i1);
    }
    var c1: int, c2: int := s1[i1 + k], s2[i2 + k];
    r := c1 - c2;
  }

  // The padded buffer strncpy leaves in a field of n bytes, and the NUL-terminated form of a
  // text that fits it.
  method Strncpy(src: text, n: nat) returns (dest: seq<byte>)
    ensures |dest| == n
    ensures |src| < n ==> HasNul(dest, 0) && TextAt(dest, 0) == src
    ensures forall i :: 0 <= i < n ==> dest[i] == if i < |src| then src[i] else 0
  {
    dest := [];
    var i := 0;
    while i < n && i < |src|
      invariant |dest| == i <= n && i <= |src|
      invariant dest == src[..i]
    {
      dest := dest + [src[i]];
      i := i + 1;
    }
    ghost var k := i;
    while i < n
      invariant k <= i <= n && |dest| == i
      invariant dest[..k] == src[..k]
      invariant forall j :: k <= j < i ==> dest[j] == 0
    {
      dest := dest + [0];
      i := i + 1;
    }
    if |src| < n {
      assert dest[0..|src|] == dest[..k] == src;
      TextIs(dest, 0, |src|);
    }
  }

  // ---------- Splitting a path ----------

  // Number of leading bytes that are not delimiters.
  function Span(s: seq<byte>, delim: seq<byte>): (k: nat)
    ensures k <= |s|
    ensures forall i :: 0 <= i < k ==> s[i] !in delim
    ensures k < |s| ==> s[k] in delim
  {
    if s == [] || s[0] in delim then 0 else 1 + Span(s[1..], delim)
  }

  // The non-empty pieces of s between delimiters.
  function Split(s: seq<byte>, delim: seq<byte>): (cs: seq<seq<byte>>)
    decreases |s|
  {
    if s == [] then []
    else if s[0] in delim then Split(s[1..], delim)
    else
      var k := Span(s, delim);
      [s[..k]] + Split(s[k..], delim)
  }

  function Components(path: text): (cs: seq<seq<byte>>)
    ensures forall i :: 0 <= i < |cs| ==> 0 !in cs[i]
  {
    SplitTexts(path, DELIM);
    Split(path, DELIM)
  }

  lemma {:induction false} SplitTexts(s: seq<byte>, delim: seq<byte>)
    requires 0 !in s
    ensures forall i :: 0 <= i < |Split(s, delim)| ==> 0 !in Split(s, delim)[i]
    decreases |s|
  {
    if s != [] {
      if s[0] in delim { SplitTexts(s[1..], delim); } else { SplitTexts(s[Span(s, delim)..], delim); }
    }
  }

  lemma SpanIs(s: seq<byte>, delim: seq<byte>, k: nat)
    requires k <= |s| && (forall i :: 0 <= i < k ==> s[i] !in delim)
    requires k < |s| ==> s[k] in delim
    ensures Span(s, delim) == k
  {
  }

  // A component is never empty and never holds a delimiter.
  lemma {:induction false} SplitPieces(s: seq<byte>, delim: seq<byte>, i: nat)
    requires i < |Split(s, delim)|
    ensures Split(s, delim)[i] != [] && forall c :: c in Split(s, delim)[i] ==> c !in delim
    decreases |s|
  {
    if s[0] in delim {
      SplitPieces(s[1..], delim, i);
    } else {
      var k := Span(s, delim);
      if i > 0 {
        SplitPieces(s[k..], delim, i - 1);
      }
    }
  }

  predicate PlainName(n: seq<byte>) {
    n != [] && 0 !in n && SLASH !in n
  }

  // Appending "/name" to a path appends one component.
  lemma {:induction false} SplitAppend(s: seq<byte>, n: seq<byte>)
    requires PlainName(n)
    ensures Split(s + DELIM + n, DELIM) == Split(s, DELIM) + [n]
    decreases |s|
  {
    var t := s + DELIM + n;
    if s == [] {
      assert t == DELIM + n && t[1..] == n;
      SpanIs(n, DELIM, |n|);
      assert n[..|n|] == n && n[|n|..] == [];
    } else if s[0] == SLASH {
      assert t[1..] == s[1..] + DELIM + n;
      SplitAppend(s[1..], n);
    } else {
      var k := Span(s, DELIM);
      assert forall i :: 0 <= i < k ==> t[i] == s[i];
      assert t[k] == SLASH;
      SpanIs(t, DELIM, k);
      assert t[..k] == s[..k];
      assert t[k..] == s[k..] + DELIM + n;
      SplitAppend(s[k..], n);
    }
  }

  // A delimiter at the end appends none, and a path without delimiters is its one component.
  lemma {:induction false} SplitEnd(s: seq<byte>)
    ensures DELIM == [47] && Split(s + DELIM, DELIM) == Split(s, DELIM)
    ensures SLASH !in s && s != [] ==> Split(s, DELIM) == [s]
    decreases |s|
  {
    var t := s + DELIM;
    if s == [] {
      assert t[1..] == [];
    } else if s[0] == SLASH {
      assert t[1..] == s[1..] + DELIM;
      SplitEnd(s[1..]);
    } else {
      var k := Span(s, DELIM);
      assert forall i :: 0 <= i < k ==> t[i] == s[i];
      SpanIs(t, DELIM, k);
      assert t[..k] == s[..k] && t[k..] == s[k..] + DELIM;
      SplitEnd(s[k..]);
      if SLASH !in s {
        SpanIs(s, DELIM, |s|);
        assert s[..k] == s && s[k..] == [];
      }
    }
  }

  // The path "/c0/c1/..." of a list of components.
  function Join(cs: seq<seq<byte>>): seq<byte> {
    if cs == [] then [] else Join(cs[..|cs| - 1]) + DELIM + cs[|cs| - 1]
  }

  // Splitting undoes joining.
  lemma {:induction false} SplitJoin(cs: seq<seq<byte>>)
    requires forall i :: 0 <= i < |cs| ==> PlainName(cs[i])
    ensures Split(Join(cs), DELIM) == cs
  {
    if cs != [] {
      var front := cs[..|cs| - 1];
      SplitJoin(front);
      SplitAppend(Join(front), cs[|cs| - 1]);
      assert cs == front + [cs[|cs| - 1]];
    }
  }

  // Cutting the first token [tok, m) off [tok, e).
  lemma CutSplits(b: seq<byte>, tok: nat, m: nat, e: nat, delim: seq<byte>)
    requires tok < m <= e <= |b| && (forall k :: tok <= k < m ==> b[k] !in delim)
    requires m < e ==> b[m] in delim
    ensures Split(b[tok..e], delim) == [b[tok..m]] + (if m < e then Split(b[m + 1..e], delim) else [])
  {
    var t := b[tok..e];
    SpanIs(t, delim, m - tok);
    assert t[..m - tok] == b[tok..m] && t[m - tok..] == b[m..e];
    if m < e {
      assert b[m..e][1..] == b[m + 1..e];
    }
  }

  // Skipping a leading delimiter.
  lemma SkipSplits(b: seq<byte>, i: nat, e: nat, delim: seq<byte>)
    requires i < e <= |b| && b[i] in delim
    ensures Split(b[i..e], delim) == Split(b[i + 1..e], delim)
  {
  }

  // ---------- strtok_r ----------

  const NULL := -1

  // strtok_r over one buffer: pointers are indices, NULL is -1.
  class Tokenizer {
    const buf: array<byte>
    var last: int

    ghost predicate Valid()
      reads this, buf
    {
      buf.Length > 0 && buf[buf.Length - 1] == 0 && NULL <= last < buf.Length
    }

    // The tokens that the buffer still holds from pointer p on.
    ghost function Pending(p: int, delim: text): seq<seq<byte>>
      requires Valid() && NULL <= p < buf.Length
      reads this, buf
    {
      if p == NULL then []
      else
        assert buf[..][buf.Length - 1] == 0;
        Split(TextAt(buf[..], p), delim)
    }

    // tok is the first of the tokens to do, and the others are pending; NULL when there is none.
    ghost predicate Gives(tok: int, todo: seq<seq<byte>>, delim: text)
      requires Valid()
      reads this, buf
    {
      if todo == [] then tok == NULL && last == NULL
      else
        0 <= tok < buf.Length && HasNul(buf[..], tok) && TextAt(buf[..], tok) == todo[0]
        && Pending(last, delim) == todo[1..]
    }

    // strdup of the path.
    constructor (src: text)
      ensures Valid() && fresh(buf) && last == NULL
      ensures buf[..] == src + [0]
      ensures forall d: text :: Pending(0, d) == Split(src, d)
    {
      var b := new byte[|src| + 1](_ => 0);
      buf := b;
      last := NULL;
      new;
      var i := 0;
      while i < |src|
        invariant 0 <= i <= |src| && fresh(buf) && buf.Length == |src| + 1
        invariant buf[..i] == src[..i]
        modifies buf
      {
        buf[i] := src[i];
        i := i + 1;
      }
      buf[i] := 0;
      ghost var all := buf[..];
      assert all == src + [0];
      TextIs(all, 0, |src|);
      assert all[0..|src|] == src;
    }

    // One call: skip delimiters, cut the next token, remember where to go on.  The token
    // returned is the first pending one and the rest stays pending; NULL when none is left.
    method Strtok(start: int, delim: text) returns (tok: int)
      requires Valid() && NULL <= start < buf.Length
      modifies this, buf
      ensures Valid()
      ensures Gives(tok, old(Pending(if start == NULL then last else start, delim)), delim)
    {
      var s := start;
      if s == NULL {
        s := last;
        if s == NULL { return NULL; }
      }
      ghost var todo := Pending(s, delim);
      s := SkipDelimiters(s, delim);
      if buf[s] == 0 {
        last := NULL;
        return NULL;
      }
      tok := s;
      Cut(tok, delim);
    }

    // cont: the first byte from s on that is no delimiter; no pending token is passed over.
    method SkipDelimiters(start: nat, delim: text) returns (s: nat)
      requires Valid() && start < buf.Length
      ensures start <= s < buf.Length && buf[s] !in delim
      ensures Pending(s, delim) == Pending(start, delim)
      ensures buf[s] == 0 ==> Pending(start, delim) == []
    {
      s := start;
      ghost var b := buf[..];
      assert b[buf.Length - 1] == 0;
      ghost var e := Nul(b, start);
      while buf[s] in delim
        invariant start <= s <= e
        invariant Split(b[start..e], delim) == Split(b[s..e], delim)
        decreases e - s
      {
        assert b[s] in delim;
        SkipSplits(b, s, e, delim);
        s := s + 1;
      }
      TextIs(b, s, e);
    }

    // The scan of the token that starts at tok.
    method ScanToken(tok: nat, delim: text) returns (s: nat)
      requires Valid() && tok < buf.Length && buf[tok] != 0 && buf[tok] !in delim
      ensures HasNul(buf[..], tok) && tok < s <= Nul(buf[..], tok) && (buf[s] == 0 || buf[s] in delim)
      ensures forall i :: tok <= i < s ==> buf[i] !in delim
    {
      assert buf[..][buf.Length - 1] == 0;
      s := tok + 1;
      while buf[s] != 0 && buf[s] !in delim
        invariant tok < s <= Nul(buf[..], tok)
        invariant forall i :: tok <= i < s ==> buf[i] !in delim
        decreases buf.Length - s
      {
        s := s + 1;
      }
    }

    // The token that starts at tok ends in place.
    method Cut(tok: nat, delim: text)
      requires Valid() && tok < buf.Length && buf[tok] != 0 && buf[tok] !in delim
      modifies this, buf
      ensures Valid() && HasNul(buf[..], tok)
      ensures var todo := old(Pending(tok, delim));
              todo != [] && TextAt(buf[..], tok) == todo[0] && Pending(last, delim) == todo[1..]
    {
      ghost var b := buf[..];
      var s := ScanToken(tok, delim);
      ghost var e := Nul(b, tok);
      CutSplits(b, tok, s, e, delim);
      ghost var rest := if s < e then Split(b[s + 1..e], delim) else [];
      assert Pending(tok, delim) == [b[tok..s]] + rest;
      if buf[s] == 0 {
        last := NULL;
        TextIs(b, tok, s);
      } else {
        buf[s] := 0;
        last := s + 1;
        CutText(b, buf[..], tok, s, e);
        assert Pending(last, delim) == rest;
      }
    }
  }

  // Putting a NUL at m leaves the token before it and the text after it.
  lemma CutText(b: seq<byte>, b': seq<byte>, tok: nat, m: nat, e: nat)
    requires tok < m < e < |b| && b' == b[m := 0] && b[e] == 0 && forall k :: tok <= k < e ==> b[k] != 0
    ensures HasNul(b', tok) && TextAt(b', tok) == b[tok..m]
    ensures HasNul(b', m + 1) && TextAt(b', m + 1) == b[m + 1..e]
  {
    TextIs(b', tok, m);
    TextIs(b', m + 1, e);
    assert b'[tok..m] == b[tok..m] && b'[m + 1..e] == b[m + 1..e];
  }
}
