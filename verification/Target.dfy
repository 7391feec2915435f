// applyTarget: a request target becomes a decoded path and a query map.

module Target {
  import opened Text
  import opened UrlCodec

  type Query = map<string, string>

  /// The decoded target with scheme and authority taken off.
  function Stripped(decoded: string): string {
    match Find(decoded, "://", 0)
    case None => decoded
    case Some(scheme) =>
      match Find(decoded, "/", scheme + 3)
      case None => "/"
      case Some(start) => decoded[start..]
  }

  function PathOf(stripped: string): string {
    var path := match Find(stripped, "?", 0) case None => stripped case Some(q) => stripped[..q];
    if path == "" then "/" else path
  }

  /// `query` after the first `n` pieces, later ones winning.
  function QueryOf(pieces: seq<string>): Query {
    if pieces == [] then map[]
    else
      var before := QueryOf(pieces[..|pieces| - 1]);
      var pair := pieces[|pieces| - 1];
      match Find(pair, "=", 0)
      case None => before
      case Some(eq) => before[pair[..eq] := pair[eq + 1..]]
  }

  function QueryPieces(stripped: string): seq<string> {
    match Find(stripped, "?", 0)
    case None => []
    case Some(q) => Pieces(CStr(stripped[q + 1..]), "&")
  }

  method ApplyQuery(raw: string) returns (query: Query)
    ensures query == QueryOf(Pieces(CStr(raw), "&"))
  {
    hide Find, Pieces, CStr;
    query := map[];
    CStrId("&");
    var pairs := Split(raw, "&");
    var i := 0;
    while i < |pairs|
      invariant i <= |pairs| && query == QueryOf(pairs[..i])
    {
      var pair := pairs[i];
      assert pairs[..i + 1][..i] == pairs[..i];
      var eq := Find(pair, "=", 0);
      if eq.Some? {
        query := query[pair[..eq.value] := pair[eq.value + 1..]];
      }
      i := i + 1;
    }
    assert pairs[..i] == pairs;
  }

  method ApplyTarget(target: string) returns (path: string, query: Query)
    ensures path == PathOf(Stripped(Decode(target)))
    ensures query == QueryOf(QueryPieces(Stripped(Decode(target))))
  {
    hide Find, Decode, Pieces, CStr;
    query := map[];
    var decoded := UrlDecode(target);
    var scheme := Find(decoded, "://", 0);
    if scheme.Some? {
      var pathStart := Find(decoded, "/", scheme.value + 3);
      decoded := if pathStart.None? then "/" else decoded[pathStart.value..];
    }
    var q := Find(decoded, "?", 0);
    path := if q.None? then decoded else decoded[..q.value];
    if path == "" {
      path := "/";
    }
    if q.Some? {
      query := ApplyQuery(decoded[q.value + 1..]);
    }
  }

  // ------------------------------------------------- absolute form

  predicate Mentions(s: string, pat: string) { Find(s, pat, 0).Some? }

  lemma AtAppend(a: string, b: string, pat: string, i: nat)
    ensures At(b, pat, i) <==> At(a + b, pat, |a| + i)
  {
    if i + |pat| <= |b| { assert (a + b)[|a| + i..|a| + i + |pat|] == b[i..i + |pat|]; }
  }

  /// Text without ':' in front of "://" leaves that the first one.
  lemma SchemeFound(s: string, rest: string)
    requires ':' !in s
    ensures Find(s + "://" + rest, "://", 0) == Some(|s|)
  {
    var whole := s + "://" + rest;
    assert whole == s + ("://" + rest);
    assert At("://" + rest, "://", 0);
    AtAppend(s, "://" + rest, "://", 0);
    forall j: nat | j < |s| ensures !At(whole, "://", j) {
      assert whole[j] == s[j];
      if j + 3 <= |whole| { assert whole[j..j + 3][0] == whole[j]; }
    }
    FindIs(whole, "://", 0, |s|);
  }

  /// A scheme and an authority in front of an absolute path are taken off again.
  lemma AuthorityStripped(s: string, a: string, p: string)
    requires ':' !in s && '/' !in a && p != "" && p[0] == '/'
    ensures Stripped(s + "://" + a + p) == p
  {
    var whole := s + "://" + a + p;
    assert whole == s + "://" + (a + p);
    SchemeFound(s, a + p);
    var front := s + "://" + a;
    assert whole == front + p;
    AtChar(p, '/', 0);
    AtAppend(front, p, "/", 0);
    forall j: nat | |s| + 3 <= j < |front| ensures !At(whole, "/", j) {
      AtChar(whole, '/', j);
      assert whole[j] == a[j - |s| - 3];
    }
    FindIs(whole, "/", |s| + 3, |front|);
    assert whole[|front|..] == p;
  }

  lemma PlainDecoded(s: string)
    requires '%' !in s && '+' !in s
    ensures Decode(s) == s && Complete(s)
    decreases |s|
  {
    if s != "" { PlainDecoded(s[1..]); }
  }

  lemma DecodedParts(scheme: string, authority: string, p: string)
    requires Complete(scheme) && Complete(authority)
    ensures Decode(scheme + "://" + authority + p) == Decode(scheme) + "://" + Decode(authority) + Decode(p)
  {
    PlainDecoded("://");
    hide Decode, Complete;
    DecodeAppend(scheme, "://");
    CompleteAppend(scheme, "://");
    DecodeAppend(scheme + "://", authority);
    CompleteAppend(scheme + "://", authority);
    DecodeAppend(scheme + "://" + authority, p);
  }

  /// The absolute form of a target gives the path and query of its origin form exactly when no
  /// second "://" hides in the decoded path (section 3.2.2 of RFC 9112).
  lemma AbsoluteFormSame(scheme: string, authority: string, p: string)
    requires Complete(scheme) && ':' !in Decode(scheme)
    requires Complete(authority) && '/' !in Decode(authority)
    requires p != "" && p[0] == '/'
    ensures Stripped(Decode(scheme + "://" + authority + p)) == Decode(p)
    ensures Stripped(Decode(scheme + "://" + authority + p)) == Stripped(Decode(p))
       <==> !Mentions(Decode(p), "://")
  {
    DecodedParts(scheme, authority, p);
    assert Decode(p) != "" && Decode(p)[0] == '/' by { DecodeUnfold(p); }
    hide Decode, Complete, Find;
    AuthorityStripped(Decode(scheme), Decode(authority), Decode(p));
    OriginFormKept(Decode(p));
  }

  /// An origin-form target keeps its whole text exactly when the decoded text has no "://".
  lemma OriginFormKept(decoded: string)
    ensures Stripped(decoded) == decoded <==> !Mentions(decoded, "://")
  {
  }

  /// So a link carried in a query is taken for the target's own scheme and authority.
  lemma {:induction false} LinkInQueryMisread()
    ensures PathOf(Stripped(Decode("/a?u=b://c/d"))) == "/d"
  {
    hide Decode, Complete, Find;
    PlainDecoded("/a?u=b");
    PlainDecoded("c");
    PlainDecoded("/d");
    AbsoluteFormSame("/a?u=b", "c", "/d");
    assert "/a?u=b" + "://" + "c" + "/d" == "/a?u=b://c/d";
    FindCharNone("/d", '?');
  }

  // ------------------------------------------------- queries

  datatype Item = Item(name: string, value: string)

  predicate ByteField(f: Item) { Bytes(f.name) && Bytes(f.value) }

  /// No separator or NUL where the split, which comes after the decoding, would see it.
  predicate CleanField(f: Item) {
    '=' !in f.name && '&' !in f.name && '&' !in f.value && NulFree(f.name) && NulFree(f.value)
  }

  function EncodeField(f: Item): string
    requires ByteField(f)
  {
    Encode(f.name) + "=" + Encode(f.value)
  }

  function EncodeFields(fs: seq<Item>): string
    requires forall i :: 0 <= i < |fs| ==> ByteField(fs[i])
  {
    if fs == [] then ""
    else if |fs| == 1 then EncodeField(fs[0])
    else EncodeField(fs[0]) + "&" + EncodeFields(fs[1..])
  }

  function Plain(fs: seq<Item>): seq<string> {
    if fs == [] then [] else [fs[0].name + "=" + fs[0].value] + Plain(fs[1..])
  }

  function FieldMap(fs: seq<Item>): Query {
    if fs == [] then map[]
    else FieldMap(fs[..|fs| - 1])[fs[|fs| - 1].name := fs[|fs| - 1].value]
  }

  lemma FieldDecoded(f: Item)
    requires ByteField(f)
    ensures Decode(EncodeField(f)) == f.name + "=" + f.value && Complete(EncodeField(f))
  {
    EncodedComplete(f.name);
    EncodedComplete(f.value);
    RoundTrip(f.name);
    RoundTrip(f.value);
    PlainDecoded("=");
    DecodeAppend(Encode(f.name), "=");
    CompleteAppend(Encode(f.name), "=");
    DecodeAppend(Encode(f.name) + "=", Encode(f.value));
    CompleteAppend(Encode(f.name) + "=", Encode(f.value));
  }

  lemma {:induction false} FieldsDecoded(fs: seq<Item>)
    requires forall i :: 0 <= i < |fs| ==> ByteField(fs[i])
    ensures Decode(EncodeFields(fs)) == Join(Plain(fs), '&')
    ensures |Plain(fs)| == |fs|
    ensures forall i :: 0 <= i < |fs| ==> Plain(fs)[i] == fs[i].name + "=" + fs[i].value
  {
    hide Decode, Complete, ByteField, Encode;
    if fs == [] {
      PlainDecoded("");
    } else {
      FieldDecoded(fs[0]);
      FieldsDecoded(fs[1..]);
      if |fs| > 1 {
        var e := EncodeField(fs[0]);
        PlainDecoded("&");
        DecodeAppend(e, "&");
        CompleteAppend(e, "&");
        DecodeAppend(e + "&", EncodeFields(fs[1..]));
      } else {
        assert Plain(fs) == [fs[0].name + "=" + fs[0].value];
      }
    }
  }

  lemma {:induction false} QueryOfPlain(fs: seq<Item>, pieces: seq<string>)
    requires |pieces| == |fs|
    requires forall i :: 0 <= i < |fs| ==> CleanField(fs[i]) && pieces[i] == fs[i].name + "=" + fs[i].value
    ensures QueryOf(pieces) == FieldMap(fs)
  {
    if fs != [] {
      var n := |fs| - 1;
      QueryOfPlain(fs[..n], pieces[..n]);
      var pair := pieces[n];
      assert pair[..|fs[n].name|] == fs[n].name && pair[|fs[n].name| + 1..] == fs[n].value;
      FindChar(pair, '=', |fs[n].name|);
    }
  }

  lemma {:induction false} JoinFree(ts: seq<string>, c: char, d: char)
    requires c != d && forall i :: 0 <= i < |ts| ==> c !in ts[i]
    ensures c !in Join(ts, d)
  {
    if |ts| > 1 { JoinFree(ts[1..], c, d); }
  }

  /// A pattern without `c` lies on one side of it.
  lemma FindAround(a: string, c: char, b: string, pat: string, from: nat)
    requires pat != "" && c !in pat && from <= |a|
    ensures var r, r' := Find(a, pat, from), Find(b, pat, 0);
            Find(a + [c] + b, pat, from)
            == if r.Some? then r else if r'.Some? then Some(|a| + 1 + r'.value) else None
  {
    hide Find;
    var s := a + [c] + b;
    forall j: nat ensures At(s, pat, j) <==> At(a, pat, j) || (|a| < j && At(b, pat, j - |a| - 1)) {
      AtAround(a, c, b, pat, j);
    }
    var r, r' := Find(a, pat, from), Find(b, pat, 0);
    if r.Some? {
      FindIs(s, pat, from, r.value);
    } else if r'.Some? {
      FindIs(s, pat, from, |a| + 1 + r'.value);
    } else {
      forall j: nat | from <= j ensures !At(s, pat, j) {}
    }
  }

  lemma AtAround(a: string, c: char, b: string, pat: string, j: nat)
    requires pat != "" && c !in pat
    ensures At(a + [c] + b, pat, j) <==> At(a, pat, j) || (|a| < j && At(b, pat, j - |a| - 1))
  {
    var s, n := a + [c] + b, |pat|;
    if j + n <= |a| {
      assert s[j..j + n] == a[j..j + n];
    } else if |a| < j {
      if j + n <= |s| { assert s[j..j + n] == b[j - |a| - 1..j - |a| - 1 + n]; }
    } else if j + n <= |s| {
      assert s[j..j + n][|a| - j] == c;
    }
  }

  /// Stripping `path?text` takes nothing off the text: the path has its own scheme, authority and
  /// slash behind it, or else nothing is taken for one.
  predicate Seen(path: string, text: string) {
    match Find(path, "://", 0)
    case Some(scheme) => Find(path, "/", scheme + 3).Some?
    case None => !Mentions(text, "://")
  }

  lemma StrippedSeen(d: string, text: string)
    requires Seen(d, text) && '?' !in d
    ensures Stripped(d + ['?'] + text) == Stripped(d) + ['?'] + text && '?' !in Stripped(d)
  {
    hide Find;
    FindAround(d, '?', text, "://", 0);
    var r := Find(d, "://", 0);
    if r.Some? {
      FindAround(d, '?', text, "/", r.value + 3);
      var start := Find(d, "/", r.value + 3).value;
      assert (d + ['?'] + text)[start..] == d[start..] + ['?'] + text;
    }
  }

  /// Otherwise a tail of the text is all that is left.
  lemma StrippedUnseen(d: string, text: string)
    requires !Seen(d, text) && text != ""
    ensures |Stripped(d + ['?'] + text)| <= |text|
  {
    hide Find;
    FindAround(d, '?', text, "://", 0);
    var s, r := d + ['?'] + text, Find(d, "://", 0);
    if r.Some? {
      FindAround(d, '?', text, "/", r.value + 3);
    } else {
      var start := Find(s, "/", Find(s, "://", 0).value + 3);
      assert start.Some? ==> start.value > |d|;
    }
  }

  /// What the decoded target is split into.
  lemma QueryText(path: string, fs: seq<Item>)
    requires Complete(path) && '?' !in Decode(path)
    requires forall i :: 0 <= i < |fs| ==> ByteField(fs[i])
    ensures Decode(path + "?" + EncodeFields(fs)) == Decode(path) + ['?'] + Join(Plain(fs), '&')
    ensures Seen(Decode(path), Join(Plain(fs), '&')) ==>
              var s := Stripped(Decode(path + "?" + EncodeFields(fs)));
              && PathOf(s) == PathOf(Stripped(Decode(path)))
              && QueryPieces(s) == Pieces(CStr(Join(Plain(fs), '&')), "&")
  {
    hide Decode, Complete, Encode, ByteField, Pieces, CStr, Seen, Stripped;
    var d, text := Decode(path), Join(Plain(fs), '&');
    PlainDecoded("?");
    DecodeAppend(path, "?");
    CompleteAppend(path, "?");
    DecodeAppend(path + "?", EncodeFields(fs));
    FieldsDecoded(fs);
    if Seen(d, text) {
      StrippedSeen(d, text);
      var front := Stripped(d);
      var s := front + ['?'] + text;
      assert s[..|front|] == front && s[|front| + 1..] == text;
      FindChar(s, '?', |front|);
      FindCharNone(front, '?');
    }
  }

  lemma {:induction false} JoinMentions(ts: seq<string>)
    requires forall i :: 0 <= i < |ts| ==> !Mentions(ts[i], "://")
    ensures !Mentions(Join(ts, '&'), "://")
  {
    if |ts| > 1 {
      JoinMentions(ts[1..]);
      FindAround(ts[0], '&', Join(ts[1..], '&'), "://", 0);
    }
  }

  /// Percent-encoded name=value pairs come back as the map they were written from, the last of
  /// two equal names winning.
  lemma {:induction false} QueryRoundTrip(path: string, fs: seq<Item>)
    requires Complete(path) && '?' !in Decode(path)
    requires forall i :: 0 <= i < |fs| ==>
               ByteField(fs[i]) && CleanField(fs[i]) && Seen(Decode(path), fs[i].name + "=" + fs[i].value)
    requires fs == [] ==> Seen(Decode(path), "")
    ensures var s := Stripped(Decode(path + "?" + EncodeFields(fs)));
            && PathOf(s) == PathOf(Stripped(Decode(path)))
            && QueryOf(QueryPieces(s)) == FieldMap(fs)
  {
    hide Decode, Complete, Encode, ByteField, Find;
    var ps := Plain(fs);
    FieldsDecoded(fs);
    if fs != [] {
      assert Seen(Decode(path), fs[0].name + "=" + fs[0].value);
      if !Mentions(Decode(path), "://") { JoinMentions(ps); }
    }
    QueryText(path, fs);
    JoinFree(ps, '\0', '&');
    CStrId(Join(ps, '&'));
    JoinSplit(ps, '&');
    QueryOfPlain(fs, ps);
  }

  /// Behind an origin-form path.
  lemma {:induction false} QueryBehindPath(path: string, fs: seq<Item>)
    requires Complete(path) && '?' !in Decode(path) && !Mentions(Decode(path), "://") && fs != []
    requires forall i :: 0 <= i < |fs| ==>
               ByteField(fs[i]) && CleanField(fs[i]) && !Mentions(fs[i].name + "=" + fs[i].value, "://")
    ensures var s := Stripped(Decode(path + "?" + EncodeFields(fs)));
            && PathOf(s) == (if Decode(path) == "" then "/" else Decode(path))
            && QueryOf(QueryPieces(s)) == FieldMap(fs)
  {
    hide Decode, Complete, Find, Encode, ByteField, CleanField, QueryOf, QueryPieces, FieldMap;
    QueryRoundTrip(path, fs);
    BareTarget(Decode(path));
  }

  /// A target without a query is its path.
  lemma BareTarget(d: string)
    requires '?' !in d && !Mentions(d, "://")
    ensures PathOf(Stripped(d)) == (if d == "" then "/" else d)
    ensures QueryOf(QueryPieces(Stripped(d))) == map[] == FieldMap([])
  {
    FindCharNone(d, '?');
  }

  // ------------------------------------------------- which fields survive

  /// Names and values read from a query hold none of what separates them.
  lemma {:induction false} QueryIsClean(pieces: seq<string>)
    requires forall i :: 0 <= i < |pieces| ==> '&' !in pieces[i] && NulFree(pieces[i])
    ensures forall k :: k in QueryOf(pieces) ==> CleanField(Item(k, QueryOf(pieces)[k]))
  {
    if pieces != [] {
      var n := |pieces| - 1;
      QueryIsClean(pieces[..n]);
      FindCharInv(pieces[n], '=');
    }
  }

  /// What is read of a field is no longer than the piece it is read from.
  lemma {:induction false} QueryIsShort(pieces: seq<string>, n: nat)
    requires forall i :: 0 <= i < |pieces| ==> |pieces[i]| <= n
    ensures forall k :: k in QueryOf(pieces) ==> |k| + 1 + |QueryOf(pieces)[k]| <= n
  {
    if pieces != [] {
      QueryIsShort(pieces[..|pieces| - 1], n);
      FindCharInv(pieces[|pieces| - 1], '=');
    }
  }

  lemma {:induction false} PiecesShort(s: string)
    ensures forall i :: 0 <= i < |Pieces(s, "&")| ==> |Pieces(s, "&")[i]| <= |s|
    decreases |s|
  {
    FindCharInv(s, '&');
    var r := Find(s, "&", 0);
    if s != "" && r.Some? { PiecesShort(s[r.value + 1..]); }
  }

  /// A text no longer than the field, and a '?' in front of its query, is too short to hold it.
  lemma TooShort(s: string, f: Item)
    requires |s| <= |f.name + "=" + f.value|
    ensures QueryOf(QueryPieces(s)) != map[f.name := f.value]
  {
    hide Pieces, Find, CStr, QueryOf;
    var query := QueryOf(QueryPieces(s));
    var q := Find(s, "?", 0);
    if q.Some? {
      var text := s[q.value + 1..];
      CStrNulFree(text);
      PiecesShort(CStr(text));
      QueryIsShort(QueryPieces(s), |text|);
    } else {
      QueryIsShort([], 0);
    }
    assert f.name in query ==> |f.name| + 1 + |query[f.name]| < |f.name + "=" + f.value|;
    assert f.name in map[f.name := f.value];
  }

  /// A field with a separator or a NUL in it is not what comes out of the split.
  lemma NotClean(f: Item)
    requires !CleanField(f)
    ensures QueryOf(Pieces(CStr(f.name + "=" + f.value), "&")) != map[f.name := f.value]
  {
    hide Pieces, CStr, QueryOf;
    var text := f.name + "=" + f.value;
    CStrNulFree(text);
    SplitTokens(CStr(text), '&');
    PiecesNulFree(CStr(text), '&');
    QueryIsClean(Pieces(CStr(text), "&"));
    var query := QueryOf(Pieces(CStr(text), "&"));
    assert f.name in query ==> query[f.name] != f.value;
    assert f.name in map[f.name := f.value];
  }

  /// The target is decoded before it is stripped and split, so that a field comes back as itself
  /// exactly when it holds none of the bytes the split looks for, escaped or not, and nothing of
  /// it is taken for a scheme and an authority.
  lemma {:induction false} FieldReturns(path: string, f: Item)
    requires Complete(path) && '?' !in Decode(path) && ByteField(f)
    ensures QueryOf(QueryPieces(Stripped(Decode(path + "?" + EncodeField(f))))) == map[f.name := f.value]
       <==> CleanField(f) && Seen(Decode(path), f.name + "=" + f.value)
  {
    var fs, text := [f], f.name + "=" + f.value;
    assert EncodeFields(fs) == EncodeField(f);
    assert Plain(fs) == [text];
    assert FieldMap(fs) == map[f.name := f.value];
    hide Decode, Complete, Encode, ByteField, CleanField, Seen, Pieces, CStr, EncodeField, EncodeFields, QueryOf,
         QueryPieces, Stripped;
    QueryText(path, fs);
    if !Seen(Decode(path), text) {
      StrippedUnseen(Decode(path), text);
      TooShort(Stripped(Decode(path + "?" + EncodeField(f))), f);
    } else if !CleanField(f) {
      NotClean(f);
    } else {
      QueryRoundTrip(path, fs);
    }
  }

  /// A link in a field, escaped or not: u=b://c/d behind the path "/a" is lost, clean as it is.
  lemma {:induction false} LinkLost()
    ensures var f := Item("u", "b://c/d");
            && ByteField(f) && CleanField(f)
            && QueryOf(QueryPieces(Stripped(Decode("/a" + "?" + EncodeField(f))))) != map["u" := "b://c/d"]
  {
    var f := Item("u", "b://c/d");
    hide Decode, Complete, Find, Encode, EncodeField, QueryOf, QueryPieces, Stripped;
    PlainDecoded("/a");
    ColonFree("/a");
    LinkMentioned();
    FieldReturns("/a", f);
  }

  lemma LinkMentioned()
    ensures Mentions("u" + "=" + "b://c/d", "://")
  {
    var s := "u=b://c/d";
    assert "u" + "=" + "b://c/d" == s && s[3..6] == "://";
    assert At(s, "://", 3);
  }

  lemma ColonFree(s: string)
    requires ':' !in s
    ensures !Mentions(s, "://")
  {
    forall j: nat ensures !At(s, "://", j) {
      if j + 3 <= |s| { assert s[j..j + 3][0] == s[j]; }
    }
  }

  lemma EncodedAmpersand()
    ensures Bytes("1&b") && Encode("1&b") == "1%26b" && Encode("a") == "a"
  {
    assert "1&b"[1..] == "&b" && "&b"[1..] == "b" && "b"[1..] == "" && "a"[1..] == "";
    assert Encode("b") == "b";
    assert Encode("&b") == "%26" + "b";
    assert Encode("1&b") == "1" + "%26b";
  }

  lemma TwoPieces()
    ensures QueryOf(["a=1", "b"]) == map["a" := "1"]
  {
    assert ["a=1", "b"][..1] == ["a=1"] && ["a=1"][..0] == [];
    assert "a=1"[..1] == "a" && "a=1"[2..] == "1" && QueryOf([]) == map[];
    FindChar("a=1", '=', 1);
    FindCharNone("b", '=');
    assert QueryOf(["a=1"]) == map["a" := "1"];
  }

  lemma {:induction false} EscapedDecoded(f: Item)
    requires f == Item("a", "1&b") && ByteField(f)
    ensures QueryPieces(Stripped(Decode("/" + "?" + EncodeField(f)))) == ["a=1", "b"]
  {
    hide Decode, Complete, Find, Encode, Pieces, CStr, EncodeField, QueryPieces, Stripped;
    assert EncodeFields([f]) == EncodeField(f);
    PlainDecoded("/");
    FieldDecoded(f);
    PlainDecoded("/?");
    DecodeAppend("/?", EncodeField(f));
    assert "/" + "?" == "/?" && "/?" + (f.name + "=" + f.value) == "/?a=1&b";
    ColonFree("/");
    ColonFree("a=1&b");
    QueryText("/", [f]);
    assert [f][1..] == [] && ["a=1", "b"][1..] == ["b"];
    assert f.name + "=" + f.value == "a=1&b";
    assert Plain([f]) == ["a=1&b"] + Plain([]) == ["a=1&b"];
    assert Join(["b"], '&') == "b";
    assert Join(["a=1", "b"], '&') == "a=1" + ['&'] + "b" == "a=1&b";
    CStrId("a=1&b");
    JoinSplit(["a=1", "b"], '&');
  }

  /// An escaped '&' in a value ends it: a=1%26b is read as a=1.
  lemma {:induction false} EscapedSeparatorCuts()
    ensures EncodeField(Item("a", "1&b")) == "a=1%26b"
    ensures QueryOf(QueryPieces(Stripped(Decode("/?a=1%26b")))) == map["a" := "1"]
  {
    hide Decode, Find, Encode, Pieces, CStr, QueryOf, QueryPieces, Stripped;
    EncodedAmpersand();
    var f := Item("a", "1&b");
    assert EncodeField(f) == "a" + "=" + "1%26b" == "a=1%26b";
    EscapedDecoded(f);
    TwoPieces();
    assert "/" + "?" + "a=1%26b" == "/?a=1%26b";
  }
}
