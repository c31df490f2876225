/**
 * The two ways the page reads `window.location.search`:
 *  - `search.includes(p)`, a raw substring test (the `unlock=true` override);
 *  - `new URLSearchParams(search).get(name)` (the `admin` override), which
 *    follows the application/x-www-form-urlencoded parser of the WHATWG URL
 *    standard: drop one leading '?', split on '&', skip empty pieces, split
 *    each piece at its first '=', turn '+' into a space and percent-decode
 *    name and value; `get` answers the value of the FIRST pair so named.
 */
module QueryString {
  import opened Options

  // ---------------------------------------------------------------------------
  // Substring test (String.prototype.includes)
  // ---------------------------------------------------------------------------

  /** `p` occurs in `s` starting at position `i`. */
  ghost predicate OccursAt(s: string, p: string, i: int) {
    0 <= i && i + |p| <= |s| && s[i..i + |p|] == p
  }

  /** `s.includes(p)`: some contiguous slice of `s` equals `p`. */
  function Contains(s: string, p: string): (r: bool)
    ensures r <==> exists i :: OccursAt(s, p, i)
    decreases |s|
  {
    if |s| < |p| then
      false
    else if s[..|p|] == p then
      assert OccursAt(s, p, 0);
      true
    else
      var r := Contains(s[1..], p);
      assert r ==> exists i :: OccursAt(s, p, i) by {
        if r {
          var i :| OccursAt(s[1..], p, i);
          assert s[i + 1..i + 1 + |p|] == s[1..][i..i + |p|];
          assert OccursAt(s, p, i + 1);
        }
      }
      assert forall i :: OccursAt(s, p, i) ==> i > 0 && OccursAt(s[1..], p, i - 1) by {
        forall i | OccursAt(s, p, i)
          ensures i > 0 && OccursAt(s[1..], p, i - 1)
        {
          assert i != 0;
          assert s[1..][i - 1..i - 1 + |p|] == s[i..i + |p|];
        }
      }
      r
  }

  /** A prefix of `s` that equals `p` makes `s` contain `p`. */
  lemma ContainsPrefix(p: string, rest: string)
    ensures Contains(p + rest, p)
  {
    assert OccursAt(p + rest, p, 0);
  }

  /** Text in front of an occurrence does not hide it. */
  lemma ContainsAfter(front: string, s: string, p: string)
    requires Contains(s, p)
    ensures Contains(front + s, p)
  {
    var i :| OccursAt(s, p, i);
    assert (front + s)[|front| + i..|front| + i + |p|] == s[i..i + |p|];
    assert OccursAt(front + s, p, |front| + i);
  }

  /** Every character of an occurring pattern occurs in the text. */
  lemma ContainsChars(s: string, p: string, k: int)
    requires Contains(s, p) && 0 <= k < |p|
    ensures p[k] in s
  {
    var i :| OccursAt(s, p, i);
    assert s[i + k] == s[i..i + |p|][k];
  }

  // ---------------------------------------------------------------------------
  // Splitting on a separator (String.prototype.split with a one-character separator)
  // ---------------------------------------------------------------------------

  /** Pieces glued back together with the separator between them. */
  function Join(pieces: seq<string>, sep: char): string
    requires |pieces| >= 1
  {
    if |pieces| == 1 then pieces[0] else pieces[0] + [sep] + Join(pieces[1..], sep)
  }

  /** `s.split(sep)`: the text up to the first separator, then the split of what follows it. */
  function Split(s: string, sep: char): (r: seq<string>)
    ensures |r| >= 1
    decreases |s|
  {
    var i := IndexOf(s, sep);
    if i == |s| then [s] else [s[..i]] + Split(s[i + 1..], sep)
  }

  /** No piece contains the separator. */
  lemma {:induction false} SplitPiecesFree(s: string, sep: char)
    ensures forall k :: 0 <= k < |Split(s, sep)| ==> sep !in Split(s, sep)[k]
    decreases |s|
  {
    var i := IndexOf(s, sep);
    if i < |s| {
      SplitPiecesFree(s[i + 1..], sep);
      assert sep !in s[..i];
    }
  }

  /** Joining the pieces with the separator gives back the string. */
  lemma {:induction false} SplitJoin(s: string, sep: char)
    ensures Join(Split(s, sep), sep) == s
    decreases |s|
  {
    var i := IndexOf(s, sep);
    if i < |s| {
      var tail := s[i + 1..];
      SplitJoin(tail, sep);
      var ps := Split(tail, sep);
      SplitUnfold(s, sep);
      JoinCons(s[..i], ps, sep);
      SliceAround(s, i);
    }
  }

  /** A string is the text before position `i`, the character there, and the text after. */
  lemma SliceAround(s: string, i: int)
    requires 0 <= i < |s|
    ensures s == s[..i] + [s[i]] + s[i + 1..]
  {
  }

  /** A string with a separator: the text before it, then the split of the text after it. */
  lemma SplitUnfold(s: string, sep: char)
    requires IndexOf(s, sep) < |s|
    ensures Split(s, sep) == [s[..IndexOf(s, sep)]] + Split(s[IndexOf(s, sep) + 1..], sep)
  {
  }

  /** Joining a piece in front of a list of pieces. */
  lemma JoinCons(p: string, ps: seq<string>, sep: char)
    requires |ps| >= 1
    ensures Join([p] + ps, sep) == p + [sep] + Join(ps, sep)
  {
    assert ([p] + ps)[1..] == ps;
  }

  /** A separator-free string is a single piece. */
  lemma SplitNoSeparator(s: string, sep: char)
    requires sep !in s
    ensures Split(s, sep) == [s]
  {
  }

  /** `IndexOf` is pinned down by its contract: the first `c`, or the length. */
  lemma {:induction false} IndexOfUnique(s: string, c: char, k: nat)
    requires k <= |s| && (k < |s| ==> s[k] == c) && c !in s[..k]
    ensures IndexOf(s, c) == k
  {
    if k > 0 {
      assert s[0] == s[..k][0];
      assert s[1..][..k - 1] == s[..k][1..];
      IndexOfUnique(s[1..], c, k - 1);
    }
  }

  /** Where the first `c` of `a + x` lies. */
  lemma IndexOfAppend(a: string, x: string, c: char)
    ensures IndexOf(a, c) < |a| ==> IndexOf(a + x, c) == IndexOf(a, c)
    ensures IndexOf(a, c) == |a| ==> IndexOf(a + x, c) == |a| + IndexOf(x, c)
  {
    var i := IndexOf(a, c);
    if i < |a| {
      assert (a + x)[i] == a[i];
      assert (a + x)[..i] == a[..i];
      IndexOfUnique(a + x, c, i);
    } else {
      var k := IndexOf(x, c);
      assert a[..i] == a;
      assert (a + x)[..|a| + k] == a + x[..k];
      assert k < |x| ==> (a + x)[|a| + k] == x[k];
      IndexOfUnique(a + x, c, |a| + k);
    }
  }

  /** A separator-free first piece is split off whole. */
  lemma SplitLeading(p: string, rest: string, sep: char)
    requires sep !in p
    ensures Split(p + [sep] + rest, sep) == [p] + Split(rest, sep)
  {
    var s := p + [sep] + rest;
    IndexOfAppend(p, [sep] + rest, sep);
    assert s == p + ([sep] + rest);
    assert IndexOf(s, sep) == |p|;
    assert s[..|p|] == p;
    assert s[|p| + 1..] == rest;
  }

  // ---------------------------------------------------------------------------
  // Percent-decoding
  // ---------------------------------------------------------------------------

  predicate IsHexDigit(c: char) {
    ('0' <= c <= '9') || ('A' <= c <= 'F') || ('a' <= c <= 'f')
  }

  function HexValue(c: char): (v: int)
    requires IsHexDigit(c)
    ensures 0 <= v < 16
  {
    if '0' <= c <= '9' then c as int - '0' as int
    else if 'A' <= c <= 'F' then c as int - 'A' as int + 10
    else c as int - 'a' as int + 10
  }

  /** '+' becomes a space; every other character stays. */
  function PlusToSpace(s: string): (r: string)
    ensures |r| == |s|
    ensures forall k :: 0 <= k < |s| ==> r[k] == (if s[k] == '+' then ' ' else s[k])
  {
    if |s| == 0 then [] else [if s[0] == '+' then ' ' else s[0]] + PlusToSpace(s[1..])
  }

  /**
   * "%XY" with two hexadecimal digits becomes the character with code 0xXY;
   * a '%' not followed by two hexadecimal digits stays as it is.
   */
  function PercentDecode(s: string): (r: string)
    ensures |r| <= |s|
    ensures '%' !in s ==> r == s
  {
    if |s| == 0 then
      []
    else if |s| >= 3 && s[0] == '%' && IsHexDigit(s[1]) && IsHexDigit(s[2]) then
      [(16 * HexValue(s[1]) + HexValue(s[2])) as char] + PercentDecode(s[3..])
    else
      [s[0]] + PercentDecode(s[1..])
  }

  /** The upper-case hexadecimal digit for `n`, the inverse of `HexValue`. */
  function HexDigit(n: int): (c: char)
    requires 0 <= n < 16
    ensures IsHexDigit(c) && HexValue(c) == n
    ensures c != '%' && c != '&' && c != '+' && c != '=' && c != 't'
  {
    if n < 10 then ('0' as int + n) as char else ('A' as int + n - 10) as char
  }

  /** The escape `%XY` of a character with a one-byte code. */
  function Escape(c: char): (e: string)
    requires c as int < 256
    ensures |e| == 3 && e[0] == '%' && IsHexDigit(e[1]) && IsHexDigit(e[2])
    ensures 16 * HexValue(e[1]) + HexValue(e[2]) == c as int
  {
    ['%', HexDigit(c as int / 16), HexDigit(c as int % 16)]
  }

  /** The upper-case form of a hexadecimal digit; other characters stay. */
  function Upper(c: char): char {
    if 'a' <= c <= 'f' then (c as int - 32) as char else c
  }

  /** A hexadecimal digit has the same value in either case. */
  lemma HexValueUpper(c: char)
    requires IsHexDigit(c)
    ensures IsHexDigit(Upper(c)) && HexValue(Upper(c)) == HexValue(c)
  {
  }

  /**
   * An escape `%XY` decodes to the character it encodes, whatever follows
   * it, with either case of hexadecimal digits: `%6d` and `%6D` both give 'm'.
   */
  lemma PercentEscape(c: char, x: char, y: char, rest: string)
    requires c as int < 256 && IsHexDigit(x) && IsHexDigit(y)
    requires Upper(x) == Escape(c)[1] && Upper(y) == Escape(c)[2]
    ensures PercentDecode(['%', x, y] + rest) == [c] + PercentDecode(rest)
  {
    HexValueUpper(x);
    HexValueUpper(y);
    assert (['%', x, y] + rest)[3..] == rest;
  }

  /** Text without '%' passes through decoding unchanged, ahead of what follows. */
  lemma {:induction false} PercentDecodePlainFront(p: string, rest: string)
    requires '%' !in p
    ensures PercentDecode(p + rest) == p + PercentDecode(rest)
  {
    if |p| > 0 {
      assert (p + rest)[0] == p[0];
      assert (p + rest)[1..] == p[1..] + rest;
      PercentDecodePlainFront(p[1..], rest);
      assert p == [p[0]] + p[1..];
    } else {
      assert p + rest == rest;
    }
  }

  /** A '%' that does not start two hexadecimal digits is kept as it is. */
  lemma PercentMalformedKept(rest: string)
    requires !(|rest| >= 2 && IsHexDigit(rest[0]) && IsHexDigit(rest[1]))
    ensures PercentDecode("%" + rest) == "%" + PercentDecode(rest)
  {
    assert ("%" + rest)[1..] == rest;
  }

  /** Text whose every character has a one-byte code. */
  predicate Bytes(s: string) {
    forall k :: 0 <= k < |s| ==> s[k] as int < 256
  }

  /** Every character escaped: the encoding a client may send for any one-byte text. */
  function PercentEncode(s: string): (r: string)
    requires Bytes(s)
    ensures |r| == 3 * |s|
    ensures '&' !in r && '+' !in r && '=' !in r && 't' !in r
  {
    if |s| == 0 then [] else Escape(s[0]) + PercentEncode(s[1..])
  }

  /** Decoding undoes the encoding. */
  lemma {:induction false} PercentEncodeRoundTrip(s: string)
    requires Bytes(s)
    ensures PercentDecode(PercentEncode(s)) == s
  {
    if |s| > 0 {
      var e := Escape(s[0]);
      assert e == ['%', e[1], e[2]];
      PercentEscape(s[0], e[1], e[2], PercentEncode(s[1..]));
      PercentEncodeRoundTrip(s[1..]);
      assert s == [s[0]] + s[1..];
    }
  }

  /** The two spellings of the name used below. */
  lemma AdminSpellings()
    ensures "ad" + ("%6d" + "in") == "ad%6din"
    ensures "ad" + ("m" + "in") == "admin"
  {
  }

  /** `%6d`, in lower case, decodes to 'm' like `%6D` does. */
  lemma LowerCaseEscapeStep()
    ensures PercentDecode("%6d" + "in") == "m" + "in"
  {
    assert Escape('m') == ['%', '6', 'D'];
    PercentEscape('m', '6', 'd', "in");
  }

  /** A lower-case escape inside a name: `ad%6din` decodes to `admin`. */
  lemma DecodeLowerCaseEscape()
    ensures Decode("ad%6din") == "admin"
  {
    AdminSpellings();
    var name := "ad" + ("%6d" + "in");
    assert PlusToSpace(name) == name by {
      assert '+' !in name;
    }
    LowerCaseEscapeStep();
    assert PercentDecode(name) == "ad" + ("m" + "in") by {
      PercentDecodePlainFront("ad", "%6d" + "in");
    }
  }

  /** A name or value as the parser delivers it. */
  function Decode(s: string): string {
    PercentDecode(PlusToSpace(s))
  }

  /** Text free of the characters the parser treats specially inside a name or value. */
  predicate Plain(s: string) {
    '&' !in s && '+' !in s && '%' !in s
  }

  /** An encoded value reaches the program as the text it encodes. */
  lemma DecodeEncoded(s: string)
    requires Bytes(s)
    ensures Decode(PercentEncode(s)) == s
  {
    assert PlusToSpace(PercentEncode(s)) == PercentEncode(s);
    PercentEncodeRoundTrip(s);
  }

  /** Plain text decodes to itself. */
  lemma DecodePlain(s: string)
    requires Plain(s)
    ensures Decode(s) == s
  {
    assert PlusToSpace(s) == s;
  }

  // ---------------------------------------------------------------------------
  // URLSearchParams
  // ---------------------------------------------------------------------------

  datatype Param = Param(name: string, value: string)

  /** Position of the first `c` in `s`, or `|s|` when there is none. */
  function IndexOf(s: string, c: char): (r: nat)
    ensures r <= |s|
    ensures r < |s| ==> s[r] == c
    ensures c !in s[..r]
  {
    if |s| == 0 then 0
    else if s[0] == c then 0
    else
      var r := 1 + IndexOf(s[1..], c);
      assert s[..r] == [s[0]] + s[1..][..r - 1];
      r
  }

  /** One non-empty piece: name before the first '=', value after it (empty when there is no '='). */
  function ParseParam(piece: string): Param {
    var i := IndexOf(piece, '=');
    if i < |piece| then Param(Decode(piece[..i]), Decode(piece[i + 1..]))
    else Param(Decode(piece), "")
  }

  /** Every non-empty piece, in order, becomes one pair; empty pieces are skipped. */
  function ParsePieces(pieces: seq<string>): (r: seq<Param>)
    ensures |r| == |pieces| - multiset(pieces)[""]
  {
    if |pieces| == 0 then []
    else
      assert pieces == [pieces[0]] + pieces[1..];
      if pieces[0] == "" then ParsePieces(pieces[1..])
      else [ParseParam(pieces[0])] + ParsePieces(pieces[1..])
  }

  lemma {:induction false} ParsePiecesAppend(a: seq<string>, b: seq<string>)
    ensures ParsePieces(a + b) == ParsePieces(a) + ParsePieces(b)
  {
    if |a| == 0 {
      assert a + b == b;
    } else {
      assert (a + b)[0] == a[0];
      assert (a + b)[1..] == a[1..] + b;
      ParsePiecesAppend(a[1..], b);
    }
  }

  /** The pairs of a query without its leading '?'. */
  function ParseBody(body: string): seq<Param> {
    ParsePieces(Split(body, '&'))
  }

  /** `new URLSearchParams(search)`: one leading '?' is dropped before parsing. */
  function Parse(search: string): seq<Param> {
    ParseBody(if |search| > 0 && search[0] == '?' then search[1..] else search)
  }

  /** Behind a '?' lies the query body. */
  lemma ParseQuestion(body: string)
    ensures Parse("?" + body) == ParseBody(body)
  {
    assert ("?" + body)[1..] == body;
  }

  /** The first pair called `name` in `params` carries `value`. */
  ghost predicate FirstValueIs(params: seq<Param>, name: string, value: string) {
    exists k :: 0 <= k < |params| && params[k] == Param(name, value)
                && forall j :: 0 <= j < k ==> params[j].name != name
  }

  /** There is only one first pair of a given name. */
  lemma FirstValueUnique(params: seq<Param>, name: string, v1: string, v2: string)
    requires FirstValueIs(params, name, v1) && FirstValueIs(params, name, v2)
    ensures v1 == v2
  {
    var k1 :| 0 <= k1 < |params| && params[k1] == Param(name, v1)
              && forall j :: 0 <= j < k1 ==> params[j].name != name;
    var k2 :| 0 <= k2 < |params| && params[k2] == Param(name, v2)
              && forall j :: 0 <= j < k2 ==> params[j].name != name;
    assert !(k1 < k2) && !(k2 < k1);
  }

  /** `params.get(name)`: the value of the first pair called `name`, or null. */
  function Get(params: seq<Param>, name: string): (r: Option<string>)
    ensures r.None? <==> forall k :: 0 <= k < |params| ==> params[k].name != name
    ensures r.Some? ==> FirstValueIs(params, name, r.value)
  {
    if |params| == 0 then
      None
    else if params[0].name == name then
      Some(params[0].value)
    else
      var r := Get(params[1..], name);
      assert r.Some? ==> FirstValueIs(params, name, r.value) by {
        if r.Some? {
          var k :| 0 <= k < |params[1..]| && params[1..][k] == Param(name, r.value)
                   && forall j :: 0 <= j < k ==> params[1..][j].name != name;
          assert params[k + 1] == Param(name, r.value);
          forall j | 0 <= j < k + 1 ensures params[j].name != name {
            if j > 0 { assert params[j] == params[1..][j - 1]; }
          }
          assert FirstValueIs(params, name, r.value) by {
            assert 0 <= k + 1 < |params| && params[k + 1] == Param(name, r.value);
          }
        }
      }
      assert forall k :: 1 <= k < |params| ==> params[k] == params[1..][k - 1];
      r
  }

  /** A first match in the front half wins over anything behind it. */
  lemma {:induction false} GetAppend(a: seq<Param>, b: seq<Param>, name: string)
    ensures Get(a + b, name) == if Get(a, name).Some? then Get(a, name) else Get(b, name)
  {
    if |a| == 0 {
      assert a + b == b;
    } else {
      assert (a + b)[0] == a[0];
      assert (a + b)[1..] == a[1..] + b;
      GetAppend(a[1..], b, name);
    }
  }

  /** Regrouping a three-part concatenation. */
  lemma Regroup(a: string, b: string, c: string)
    ensures a + b + c == a + (b + c)
  {
  }

  /** The parts of `name=value` around its first '='. */
  lemma EntryParts(name: string, value: string)
    requires '=' !in name
    ensures IndexOf(name + "=" + value, '=') == |name|
    ensures (name + "=" + value)[..|name|] == name
    ensures (name + "=" + value)[|name| + 1..] == value
  {
    var piece := name + "=" + value;
    assert piece[|name|] == '=';
    assert piece[..|name|] == name;
  }

  /** A piece `name=value` is the pair of the decoded name and the decoded value. */
  lemma ParamOfEntry(name: string, value: string)
    requires '=' !in name
    ensures ParseParam(name + "=" + value) == Param(Decode(name), Decode(value))
  {
    EntryParts(name, value);
  }

  /** A body `name=value` with a plain name and no '&' in the value holds exactly that pair. */
  lemma ParseBodySingle(name: string, value: string)
    requires Plain(name) && '=' !in name && '&' !in value
    ensures ParseBody(name + "=" + value) == [Param(name, Decode(value))]
  {
    var piece := name + "=" + value;
    assert '&' !in piece;
    SplitNoSeparator(piece, '&');
    ParamOfEntry(name, value);
    DecodePlain(name);
    assert piece != "";
  }

  /** A search string `?name=value` with a plain name and no '&' in the value holds exactly that pair. */
  lemma ParseSingle(name: string, value: string)
    requires Plain(name) && '=' !in name && '&' !in value
    ensures Parse("?" + name + "=" + value) == [Param(name, Decode(value))]
  {
    Regroup("?" + name, "=", value);
    Regroup("?", name, "=" + value);
    Regroup(name, "=", value);
    ParseQuestion(name + "=" + value);
    ParseBodySingle(name, value);
  }

  /** A body whose first piece has no '&' parses to that piece's pairs, then the rest's. */
  lemma ParseBodyLeading(q1: string, rest: string)
    requires '&' !in q1
    ensures ParseBody(q1 + "&" + rest) == ParseBody(q1) + ParseBody(rest)
  {
    SplitLeading(q1, rest, '&');
    SplitNoSeparator(q1, '&');
    ParsePiecesAppend([q1], Split(rest, '&'));
  }

  /** A leading pair is followed by whatever the rest of the query holds. */
  lemma ParseLeading(name: string, value: string, rest: string)
    requires Plain(name) && '=' !in name && '&' !in value
    ensures Parse("?" + name + "=" + value + "&" + rest) == [Param(name, Decode(value))] + Parse("?" + rest)
  {
    var q1 := name + "=" + value;
    Regroup("?" + name, "=", value);
    Regroup("?", name, "=" + value);
    Regroup(name, "=", value);
    Regroup("?", q1, "&" + rest);
    Regroup("?" + q1, "&", rest);
    Regroup(q1, "&", rest);
    assert '&' !in q1;
    ParseQuestion(q1 + "&" + rest);
    ParseBodyLeading(q1, rest);
    ParseBodySingle(name, value);
    ParseQuestion(rest);
  }
}
