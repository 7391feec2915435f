// Strings as the C++ sources use them: std::string::find, C-string
// truncation, and Utils::split.

module Text {

  datatype Option<+T> = None | Some(value: T)

  /// The position `i` of `s` is the start of an occurrence of `pat`.
  predicate At(s: string, pat: string, i: nat) {
    i + |pat| <= |s| && s[i..i + |pat|] == pat
  }

  /// std::string::find: the first occurrence at or after `from`; None is npos.
  function Find(s: string, pat: string, from: nat): (r: Option<nat>)
    ensures r.Some? ==> from <= r.value && At(s, pat, r.value)
    ensures r.Some? ==> forall j: nat :: from <= j < r.value ==> !At(s, pat, j)
    ensures r.None? ==> forall j: nat :: from <= j ==> !At(s, pat, j)
    decreases |s| - from
  {
    if |s| < from + |pat| then None
    else if At(s, pat, from) then Some(from)
    else Find(s, pat, from + 1)
  }

  lemma FindIs(s: string, pat: string, from: nat, i: nat)
    requires from <= i && At(s, pat, i)
    requires forall j: nat :: from <= j < i ==> !At(s, pat, j)
    ensures Find(s, pat, from) == Some(i)
  {
  }

  lemma AtChar(s: string, c: char, i: nat)
    ensures At(s, [c], i) <==> i < |s| && s[i] == c
  {
    if i < |s| { assert s[i..i + 1] == [s[i]]; }
  }

  lemma FindChar(s: string, c: char, i: nat)
    requires i < |s| && s[i] == c && c !in s[..i]
    ensures Find(s, [c], 0) == Some(i)
  {
    AtChar(s, c, i);
    forall j: nat | j < i ensures !At(s, [c], j) {
      AtChar(s, c, j);
      assert s[j] == s[..i][j];
    }
    FindIs(s, [c], 0, i);
  }

  lemma FindCharNone(s: string, c: char)
    requires c !in s
    ensures Find(s, [c], 0) == None
  {
    var r := Find(s, [c], 0);
    if r.Some? { AtChar(s, c, r.value); }
  }

  lemma FindCharInv(s: string, c: char)
    ensures var r := Find(s, [c], 0);
            if r.Some? then r.value < |s| && s[r.value] == c && c !in s[..r.value] else c !in s
  {
    var r := Find(s, [c], 0);
    forall j: nat ensures At(s, [c], j) <==> j < |s| && s[j] == c { AtChar(s, c, j); }
    forall j: nat | j < |s| && (r.None? || j < r.value) ensures s[j] != c {
      assert !At(s, [c], j);
    }
  }

  /// A shift of the search start is a shift of the string.
  lemma FindShift(s: string, pat: string, from: nat)
    requires from <= |s|
    ensures var r := Find(s[from..], pat, 0);
            Find(s, pat, from) == if r.Some? then Some(from + r.value) else None
  {
    var t := s[from..];
    forall j: nat ensures At(t, pat, j) <==> At(s, pat, from + j) {
      if from + j + |pat| <= |s| { assert t[j..j + |pat|] == s[from + j..from + j + |pat|]; }
    }
    var r := Find(t, pat, 0);
    if r.Some? {
      forall j: nat | from <= j < from + r.value ensures !At(s, pat, j) {
        assert !At(t, pat, j - from);
      }
      FindIs(s, pat, from, from + r.value);
    } else {
      forall j: nat | from <= j ensures !At(s, pat, j) { assert !At(t, pat, j - from); }
    }
  }

  /// std::string(buffer) of a C string: everything before the first NUL.
  function CStr(s: string): string {
    if s == "" || s[0] == '\0' then "" else [s[0]] + CStr(s[1..])
  }

  predicate NulFree(s: string) { '\0' !in s }

  lemma {:induction false} CStrAppend(a: string, b: string)
    requires NulFree(a)
    ensures CStr(a + b) == a + CStr(b)
  {
    if a == "" {
      assert a + b == b;
    } else {
      assert (a + b)[1..] == a[1..] + b;
      CStrAppend(a[1..], b);
    }
  }

  lemma CStrId(a: string)
    requires NulFree(a)
    ensures CStr(a) == a
  {
    CStrAppend(a, "");
    assert a + "" == a;
  }

  /// What follows a NUL does not count.
  lemma {:induction false} CStrCut(a: string, b: string)
    requires !NulFree(a)
    ensures CStr(a + b) == CStr(a)
  {
    assert (a + b)[0] == a[0] && (a + b)[1..] == a[1..] + b;
    if a[0] != '\0' { CStrCut(a[1..], b); }
  }

  lemma {:induction false} CStrNulFree(a: string)
    ensures NulFree(CStr(a))
    ensures CStr(a) <= a
  {
    if a != "" && a[0] != '\0' { CStrNulFree(a[1..]); }
  }

  // ---------------------------------------------------------------- split

  function NonEmpty(s: string): seq<string> {
    if s == "" then [] else [s]
  }

  /// The non-empty pieces of `s` between occurrences of `d`.
  function Pieces(s: string, d: string): seq<string>
    decreases |s|
  {
    if s == "" || d == "" then NonEmpty(s)
    else
      match Find(s, d, 0)
      case None => [s]
      case Some(i) => NonEmpty(s[..i]) + Pieces(s[i + |d|..], d)
  }

  /// The same recursion with a cursor into the whole string.
  function PiecesFrom(s: string, d: string, start: nat): seq<string>
    requires d != "" && start <= |s|
    decreases |s| - start
  {
    match Find(s, d, start)
    case None => NonEmpty(s[start..])
    case Some(i) => NonEmpty(s[start..i]) + PiecesFrom(s, d, i + |d|)
  }

  lemma {:induction false} CursorPieces(s: string, d: string, start: nat)
    requires d != "" && start <= |s|
    ensures PiecesFrom(s, d, start) == Pieces(s[start..], d)
    decreases |s| - start
  {
    hide Find;
    var t := s[start..];
    FindShift(s, d, start);
    var r := Find(t, d, 0);
    if r.Some? {
      var i := r.value;
      CursorPieces(s, d, start + i + |d|);
      assert s[start..start + i] == t[..i];
      assert s[start + i + |d|..] == t[i + |d|..];
    }
  }

  lemma NothingToSplit(s: string, d: string)
    requires s == "" || d == ""
    ensures Pieces(s, d) == NonEmpty(s)
  {
  }

  method PushNonEmpty(parts: seq<string>, token: string) returns (r: seq<string>)
    ensures r == parts + NonEmpty(token)
  {
    r := parts;
    if token != "" { r := r + [token]; }
  }

  method Split(buffer: string, delim: string) returns (parts: seq<string>)
    ensures parts == Pieces(CStr(buffer), CStr(delim))
  {
    hide Find, Pieces, CStr;
    parts := [];
    var str := CStr(buffer);
    var delimiter := CStr(delim);
    if str == "" || delimiter == "" {
      if str != "" { parts := parts + [str]; }
      NothingToSplit(str, delimiter);
      return;
    }
    var start := 0;
    var end := Find(str, delimiter, start);
    while end.Some?
      invariant start <= |str| && end == Find(str, delimiter, start)
      invariant parts + PiecesFrom(str, delimiter, start) == PiecesFrom(str, delimiter, 0)
      decreases |str| - start
    {
      var token := str[start..end.value];
      Assoc(parts, NonEmpty(token), PiecesFrom(str, delimiter, end.value + |delimiter|));
      parts := PushNonEmpty(parts, token);
      start := end.value + |delimiter|;
      end := Find(str, delimiter, start);
    }
    var remaining := str[start..];
    parts := PushNonEmpty(parts, remaining);
    CursorPieces(str, delimiter, 0);
    assert str[0..] == str;
  }

  lemma Assoc<T>(a: seq<T>, b: seq<T>, c: seq<T>)
    ensures a + (b + c) == (a + b) + c
    ensures b == [] ==> a + b == a
  {
  }

  function Concat(ts: seq<string>): string {
    if ts == [] then "" else ts[0] + Concat(ts[1..])
  }

  function Join(ts: seq<string>, c: char): string {
    if ts == [] then ""
    else if |ts| == 1 then ts[0]
    else ts[0] + [c] + Join(ts[1..], c)
  }

  function Without(s: string, c: char): string {
    if s == "" then "" else (if s[0] == c then "" else [s[0]]) + Without(s[1..], c)
  }

  predicate IsToken(t: string, c: char) { t != "" && c !in t }

  lemma PiecesOfToken(t: string, c: char)
    requires c !in t
    ensures Pieces(t, [c]) == NonEmpty(t)
  {
    FindCharNone(t, c);
  }

  lemma PiecesAt(s: string, c: char, i: nat)
    requires i < |s| && s[i] == c && c !in s[..i]
    ensures Pieces(s, [c]) == NonEmpty(s[..i]) + Pieces(s[i + 1..], [c])
  {
    FindChar(s, c, i);
  }

  /// A delimiter splits: what lies left of it and right of it are split apart.
  lemma {:induction false} SplitAppend(a: string, c: char, b: string)
    ensures Pieces(a + [c] + b, [c]) == Pieces(a, [c]) + Pieces(b, [c])
    decreases |a|
  {
    hide Find, Pieces;
    var s := a + [c] + b;
    FindCharInv(a, c);
    var r := Find(a, [c], 0);
    if r.None? {
      assert s[..|a|] == a && s[|a| + 1..] == b;
      PiecesAt(s, c, |a|);
      PiecesOfToken(a, c);
    } else {
      var i := r.value;
      assert s[..i] == a[..i] && s[i + 1..] == a[i + 1..] + [c] + b;
      PiecesAt(s, c, i);
      PiecesAt(a, c, i);
      SplitAppend(a[i + 1..], c, b);
      Assoc(NonEmpty(a[..i]), Pieces(a[i + 1..], [c]), Pieces(b, [c]));
    }
  }

  lemma LeadingDelimiter(c: char, b: string)
    ensures Pieces([c] + b, [c]) == Pieces(b, [c])
  {
    SplitAppend("", c, b);
    assert "" + [c] + b == [c] + b;
  }

  lemma TrailingDelimiter(a: string, c: char)
    ensures Pieces(a + [c], [c]) == Pieces(a, [c])
  {
    SplitAppend(a, c, "");
    assert a + [c] + "" == a + [c];
  }

  /// Doubling a delimiter anywhere changes nothing.
  lemma DoubledDelimiter(a: string, c: char, b: string)
    ensures Pieces(a + [c] + ([c] + b), [c]) == Pieces(a + [c] + b, [c])
  {
    SplitAppend(a, c, [c] + b);
    LeadingDelimiter(c, b);
    SplitAppend(a, c, b);
  }

  lemma {:induction false} JoinSplit(ts: seq<string>, c: char)
    requires forall i :: 0 <= i < |ts| ==> IsToken(ts[i], c)
    ensures Pieces(Join(ts, c), [c]) == ts
  {
    if |ts| == 1 {
      PiecesOfToken(ts[0], c);
    } else if |ts| > 1 {
      SplitAppend(ts[0], c, Join(ts[1..], c));
      PiecesOfToken(ts[0], c);
      JoinSplit(ts[1..], c);
      assert [ts[0]] + ts[1..] == ts;
    }
  }

  lemma {:induction false} WithoutAppend(a: string, b: string, c: char)
    ensures Without(a + b, c) == Without(a, c) + Without(b, c)
  {
    if a == "" {
      assert a + b == b;
    } else {
      assert (a + b)[1..] == a[1..] + b;
      WithoutAppend(a[1..], b, c);
    }
  }

  lemma {:induction false} WithoutNone(a: string, c: char)
    requires c !in a
    ensures Without(a, c) == a
  {
    if a != "" { WithoutNone(a[1..], c); }
  }

  /// Every token is non-empty and delimiter-free.
  lemma {:induction false} SplitTokens(s: string, c: char)
    ensures forall i :: 0 <= i < |Pieces(s, [c])| ==> IsToken(Pieces(s, [c])[i], c)
    decreases |s|
  {
    FindCharInv(s, c);
    var r := Find(s, [c], 0);
    if s != "" && r.Some? { SplitTokens(s[r.value + 1..], c); }
  }

  lemma ConcatFirst(t: string, ts: seq<string>)
    ensures Concat(NonEmpty(t) + ts) == t + Concat(ts)
  {
    if t == "" {
      assert NonEmpty(t) + ts == ts;
    } else {
      assert ([t] + ts)[1..] == ts;
    }
  }

  lemma {:induction false} PiecesNulFree(s: string, c: char)
    requires NulFree(s)
    ensures forall i :: 0 <= i < |Pieces(s, [c])| ==> NulFree(Pieces(s, [c])[i])
    decreases |s|
  {
    FindCharInv(s, c);
    var r := Find(s, [c], 0);
    if s != "" && r.Some? { PiecesNulFree(s[r.value + 1..], c); }
  }

  /// Splitting loses nothing but delimiters.
  lemma {:induction false} SplitKeepsText(s: string, c: char)
    ensures Concat(Pieces(s, [c])) == Without(s, c)
    decreases |s|
  {
    hide Find, Pieces;
    FindCharInv(s, c);
    var r := Find(s, [c], 0);
    if r.None? {
      WithoutNone(s, c);
      PiecesOfToken(s, c);
      ConcatFirst(s, []);
      assert NonEmpty(s) + [] == NonEmpty(s);
    } else {
      var i := r.value;
      var rest := s[i + 1..];
      SplitKeepsText(rest, c);
      WithoutOneDelimiter(s[..i], c, rest);
      assert s == s[..i] + ([c] + rest);
      PiecesAt(s, c, i);
      ConcatFirst(s[..i], Pieces(rest, [c]));
    }
  }

  lemma WithoutHead(c: char, b: string)
    ensures Without([c] + b, c) == Without(b, c)
  {
    assert ([c] + b)[1..] == b;
  }

  lemma WithoutOneDelimiter(a: string, c: char, b: string)
    requires c !in a
    ensures Without(a + ([c] + b), c) == a + Without(b, c)
  {
    WithoutNone(a, c);
    WithoutHead(c, b);
    hide Without;
    WithoutAppend(a, [c] + b, c);
  }
}
