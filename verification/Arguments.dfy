/**
 * Request arguments of the web server: _parseArguments and urlDecode.
 *
 * The parser chases '&' and '=' positions through the string; its result is the list of '&'-separated segments
 * that contain '=', each split at its first '='.
 */
module Arguments {

  datatype RequestArgument = RequestArgument(key: string, value: string)

  /** The first position of `c` at or after `from`, or -1. */
  function IndexOf(s: string, c: char, from: nat): (r: int)
    ensures r == -1 || (from <= r < |s| && s[r] == c)
    decreases |s| - from
  {
    if |s| <= from then -1 else if s[from] == c then from else IndexOf(s, c, from + 1)
  }

  /** The result of a search, as a property of the text. */
  ghost predicate FirstAt(s: string, c: char, from: nat, r: int) {
    if r == -1 then
      forall i | from <= i < |s| :: s[i] != c
    else
      from <= r < |s| && s[r] == c && forall i | from <= i < r :: s[i] != c
  }

  lemma {:induction false} IndexOfFinds(s: string, c: char, from: nat, r: int)
    ensures r == IndexOf(s, c, from) <==> FirstAt(s, c, from, r)
    decreases |s| - from
  {
    if from < |s| && s[from] != c {
      IndexOfFinds(s, c, from + 1, r);
    }
  }

  /** The text between two positions in either order, cut off at the end of the text; -1 is the end. */
  function Substring(s: string, left: nat, right: int): string {
    var to := if right < 0 || |s| < right then |s| else right;
    var from := if |s| < left then |s| else left;
    if from <= to then s[from..to] else s[to..from]
  }

  /** The '&'-separated segments. */
  function Segments(s: string): (r: seq<string>)
    ensures 0 < |r|
    decreases s
  {
    var i := IndexOf(s, '&', 0);
    if i == -1 then [s] else [s[..i]] + Segments(s[i + 1..])
  }

  function Join(segments: seq<string>): string {
    if segments == [] then "" else if |segments| == 1 then segments[0] else segments[0] + "&" + Join(segments[1..])
  }

  /** Splitting undoes joining. */
  lemma {:induction false} SegmentsOfJoin(segments: seq<string>)
    requires segments != [] && forall t | t in segments :: '&' !in t
    ensures Segments(Join(segments)) == segments
    decreases segments
  {
    assert '&' !in segments[0];
    if |segments| == 1 {
      assert segments == [segments[0]];
      IndexOfFinds(segments[0], '&', 0, -1);
    } else {
      var t, rest := segments[0], Join(segments[1..]);
      var s := t + "&" + rest;
      assert forall i | 0 <= i < |t| :: s[i] == t[i];
      assert s[..|t|] == t && s[|t|] == '&' && s[|t| + 1..] == rest;
      IndexOfFinds(s, '&', 0, |t|);
      SegmentsOfJoin(segments[1..]);
    }
  }

  /** Joining undoes splitting, so the segments are the only list of '&'-free strings that joins to the text. */
  lemma {:induction false} JoinOfSegments(s: string)
    ensures Join(Segments(s)) == s
    ensures forall t | t in Segments(s) :: '&' !in t
    decreases s
  {
    var i := IndexOf(s, '&', 0);
    IndexOfFinds(s, '&', 0, i);
    if i != -1 {
      JoinOfSegments(s[i + 1..]);
      assert s == s[..i] + "&" + s[i + 1..];
      assert Segments(s)[1..] == Segments(s[i + 1..]);
    }
  }

  function HexValue(c: char): int {
    if '0' <= c <= '9' then c as int - '0' as int
    else if 'a' <= c <= 'f' then c as int - 'a' as int + 10
    else if 'A' <= c <= 'F' then c as int - 'A' as int + 10
    else -1
  }

  /** What strtol makes of "0x" and two characters: it stops at the first that is no hexadecimal digit. */
  function HexPair(a: char, b: char): (v: nat)
    ensures v < 256
  {
    if HexValue(a) < 0 then 0
    else if HexValue(b) < 0 then HexValue(a)
    else 16 * HexValue(a) + HexValue(b)
  }

  function Decode(s: string): (r: string)
    ensures |r| <= |s|
  {
    if s == "" then ""
    else if s[0] == '%' && 3 <= |s| then [HexPair(s[1], s[2]) as char] + Decode(s[3..])
    else [if s[0] == '+' then ' ' else s[0]] + Decode(s[1..])
  }

  /**
   * `t` is a percent-encoding of `s` (section 2.1 of RFC 3986, with '+' for a blank): every character is a pair
   * of hexadecimal digits of either case after '%', or stands for itself unless it is '%' or '+'.
   */
  ghost predicate Encodes(t: string, s: string)
    decreases s
  {
    if s == "" then
      t == ""
    else
      && t != ""
      && (|| (t[0] == s[0] && s[0] != '%' && s[0] != '+' && Encodes(t[1..], s[1..]))
          || (t[0] == '+' && s[0] == ' ' && Encodes(t[1..], s[1..]))
          || (3 <= |t| && t[0] == '%' && 0 <= HexValue(t[1]) && 0 <= HexValue(t[2])
              && 16 * HexValue(t[1]) + HexValue(t[2]) == s[0] as int && Encodes(t[3..], s[1..])))
  }

  /** Decoding inverts every encoding. */
  lemma {:induction false} DecodeInverts(t: string, s: string)
    requires Encodes(t, s)
    ensures Decode(t) == s
    decreases s
  {
    if s == "" {
    } else {
      var n := if t[0] == s[0] && s[0] != '%' && s[0] != '+' && Encodes(t[1..], s[1..]) then 1
               else if t[0] == '+' then 1 else 3;
      DecodeInverts(t[n..], s[1..]);
      assert s == [s[0]] + s[1..];
    }
  }

  function HexDigit(v: nat): (c: char)
    requires v < 16
    ensures HexValue(c) == v
  {
    if v < 10 then ('0' as int + v) as char else ('A' as int + v - 10) as char
  }

  /** One encoding every string of bytes has: all of it as pairs of digits. */
  function EncodeAll(s: string): string
    requires forall i | 0 <= i < |s| :: s[i] as int < 256
  {
    if s == "" then "" else ['%', HexDigit(s[0] as int / 16), HexDigit(s[0] as int % 16)] + EncodeAll(s[1..])
  }

  /** Every text has an encoding, and no character of it can end a key or a value. */
  lemma {:induction false} EncodeAllEncodes(s: string)
    requires forall i | 0 <= i < |s| :: s[i] as int < 256
    ensures Encodes(EncodeAll(s), s)
    ensures '&' !in EncodeAll(s) && '=' !in EncodeAll(s)
    decreases s
  {
    if s == "" {
    } else {
      EncodeAllEncodes(s[1..]);
      var v := s[0] as int;
      EncodesPair(HexDigit(v / 16), HexDigit(v % 16), EncodeAll(s[1..]), s);
    }
  }

  lemma EncodesPair(a: char, b: char, t: string, s: string)
    requires s != "" && Encodes(t, s[1..])
    requires 0 <= HexValue(a) && 0 <= HexValue(b) && 16 * HexValue(a) + HexValue(b) == s[0] as int
    ensures Encodes(['%', a, b] + t, s)
  {
    assert (['%', a, b] + t)[3..] == t;
  }

  /** The key and the still encoded value of a segment, if it has an '='. */
  function Split(segment: string): seq<(string, string)> {
    var e := IndexOf(segment, '=', 0);
    if e == -1 then [] else [(segment[..e], segment[e + 1..])]
  }

  function SplitAll(segments: seq<string>): seq<(string, string)> {
    if segments == [] then [] else Split(segments[0]) + SplitAll(segments[1..])
  }

  function DecodeAll(pairs: seq<(string, string)>): (r: seq<RequestArgument>)
    ensures |r| == |pairs|
  {
    if pairs == [] then [] else [RequestArgument(pairs[0].0, Decode(pairs[0].1))] + DecodeAll(pairs[1..])
  }

  lemma {:induction false} DecodeAllAppend(a: seq<(string, string)>, b: seq<(string, string)>)
    ensures DecodeAll(a + b) == DecodeAll(a) + DecodeAll(b)
  {
    if a == [] {
      assert a + b == b;
    } else {
      assert (a + b)[1..] == a[1..] + b;
      DecodeAllAppend(a[1..], b);
    }
  }

  /** The arguments a text stands for. */
  function Expected(data: string): seq<RequestArgument> {
    DecodeAll(SplitAll(Segments(data)))
  }

  /** One form field as a client sends it. */
  ghost predicate FieldOf(segment: string, arg: RequestArgument) {
    && '&' !in segment && '=' !in arg.key
    && |arg.key| < |segment| && segment[..|arg.key|] == arg.key && segment[|arg.key|] == '='
    && Encodes(segment[|arg.key| + 1..], arg.value)
  }

  lemma FieldSplits(segment: string, arg: RequestArgument)
    requires FieldOf(segment, arg)
    ensures Split(segment) == [(arg.key, segment[|arg.key| + 1..])]
    ensures DecodeAll(Split(segment)) == [arg]
  {
    assert forall i | 0 <= i < |arg.key| :: segment[i] == segment[..|arg.key|][i];
    IndexOfFinds(segment, '=', 0, |arg.key|);
    DecodeInverts(segment[|arg.key| + 1..], arg.value);
  }

  /** Keys are not decoded: a field whose key is encoded arrives under it exactly if the encoding is the key itself. */
  lemma EncodedKey(k: string, v: string, key: string, value: string)
    requires '=' !in k && '&' !in k && '&' !in v && Encodes(k, key) && Encodes(v, value)
    ensures Expected(k + "=" + v) == [RequestArgument(k, value)]
    ensures Expected(k + "=" + v) == [RequestArgument(key, value)] <==> k == key
  {
    var segment := k + "=" + v;
    assert segment[..|k|] == k && segment[|k| + 1..] == v;
    assert FieldOf(segment, RequestArgument(k, value));
    assert Join([segment]) == segment;
    FormRoundTrip([segment], [RequestArgument(k, value)]);
  }

  /** The key "a", sent as "%61", arrives as "%61". */
  lemma EncodedKeyStays()
    ensures Encodes("%61", "a") && Expected("%61" + "=" + "1") == [RequestArgument("%61", "1")]
  {
    assert "%61"[3..] == "" && "a"[1..] == "" && "1"[1..] == "";
    assert HexValue('6') == 6 && HexValue('1') == 1;
    assert Encodes("", "");
    assert Encodes("%61", "a") && Encodes("1", "1");
    EncodedKey("%61", "1", "a", "1");
  }

  lemma {:induction false} FieldsArrive(segments: seq<string>, args: seq<RequestArgument>)
    requires |segments| == |args| && forall i | 0 <= i < |args| :: FieldOf(segments[i], args[i])
    ensures DecodeAll(SplitAll(segments)) == args
    decreases segments
  {
    if segments == [] {
    } else {
      FieldSplits(segments[0], args[0]);
      FieldsArrive(segments[1..], args[1..]);
      DecodeAllAppend(Split(segments[0]), SplitAll(segments[1..]));
    }
  }

  /** A form submitted field by field arrives as exactly its keys and values, in order. */
  lemma FormRoundTrip(segments: seq<string>, args: seq<RequestArgument>)
    requires |segments| == |args| && forall i | 0 <= i < |args| :: FieldOf(segments[i], args[i])
    requires segments != []
    ensures Expected(Join(segments)) == args
  {
    forall t | t in segments
      ensures '&' !in t
    {
      var i :| 0 <= i < |segments| && segments[i] == t;
      assert FieldOf(segments[i], args[i]);
    }
    SegmentsOfJoin(segments);
    FieldsArrive(segments, args);
  }

  /** Searching the whole text from a position is searching what follows it. */
  lemma IndexInSuffix(s: string, c: char, pos: nat)
    requires pos <= |s|
    ensures var j := IndexOf(s[pos..], c, 0);
            IndexOf(s, c, pos) == if j == -1 then -1 else pos + j
  {
    var j := IndexOf(s[pos..], c, 0);
    IndexOfFinds(s[pos..], c, 0, j);
    assert forall k | pos <= k < |s| :: s[k] == s[pos..][k - pos];
    IndexOfFinds(s, c, pos, if j == -1 then -1 else pos + j);
  }

  /** Where an argument lies in the text: its start, its '=', and the '&' that ends it or -1. */
  datatype Span = Span(start: nat, sign: nat, end: int) {
    function Argument(data: string): RequestArgument {
      RequestArgument(Substring(data, start, sign), Decode(Substring(data, sign + 1, end)))
    }
  }

  function AllArguments(spans: seq<Span>, data: string): (r: seq<RequestArgument>)
    ensures |r| == |spans|
  {
    if spans == [] then [] else [spans[0].Argument(data)] + AllArguments(spans[1..], data)
  }

  /** The argument one turn of the parsing loop finds, from the two positions it looks up. */
  function Found(data: string, pos: nat): (r: seq<Span>)
    ensures |r| <= 1
  {
    var e, n := IndexOf(data, '=', pos), IndexOf(data, '&', pos);
    if e == -1 || (e > n && n != -1) then [] else [Span(pos, e, n)]
  }

  /** What the loop finds from `pos` on, and in how many turns. */
  function FoundFrom(data: string, pos: nat): seq<Span>
    requires pos <= |data|
    decreases |data| - pos
  {
    var n := IndexOf(data, '&', pos);
    Found(data, pos) + (if n == -1 then [] else FoundFrom(data, n + 1))
  }

  function TurnsFrom(data: string, pos: nat): (n: nat)
    requires pos <= |data|
    ensures 0 < n
    decreases |data| - pos
  {
    var n := IndexOf(data, '&', pos);
    if n == -1 then 1 else 1 + TurnsFrom(data, n + 1)
  }

  lemma AppendAssociates<T>(a: seq<T>, b: seq<T>, c: seq<T>)
    ensures a + (b + c) == a + b + c
  {
  }

  lemma AppendNil<T>(a: seq<T>)
    ensures a + [] == a
  {
  }

  lemma {:induction false} ArgumentsAppend(a: seq<Span>, b: seq<Span>, data: string)
    ensures AllArguments(a + b, data) == AllArguments(a, data) + AllArguments(b, data)
  {
    if a == [] {
      assert a + b == b;
    } else {
      assert (a + b)[1..] == a[1..] + b;
      ArgumentsAppend(a[1..], b, data);
    }
  }

  /** The segment that starts at `pos`. */
  function SegmentAt(data: string, pos: nat): string
    requires pos <= |data|
  {
    Substring(data, pos, IndexOf(data, '&', pos))
  }

  /** The first '=' from `pos` on, when it lies in the segment there, is that segment's first '='. */
  lemma EqualSignInSegment(data: string, pos: nat)
    requires pos <= |data|
    ensures var e, n := IndexOf(data, '=', pos), IndexOf(data, '&', pos);
            IndexOf(SegmentAt(data, pos), '=', 0) == if e == -1 || (e > n && n != -1) then -1 else e - pos
  {
    var e, n := IndexOf(data, '=', pos), IndexOf(data, '&', pos);
    var t := SegmentAt(data, pos);
    IndexOfFinds(data, '=', pos, e);
    assert forall k | 0 <= k < |t| :: t[k] == data[pos + k];
    IndexOfFinds(t, '=', 0, if e == -1 || (e > n && n != -1) then -1 else e - pos);
  }

  lemma SubstringOfSubstring(data: string, pos: nat, e: nat, n: int)
    requires pos <= e < |data| && (n == -1 || e < n <= |data|)
    ensures Substring(data, pos, n)[..e - pos] == Substring(data, pos, e)
    ensures Substring(data, pos, n)[e - pos + 1..] == Substring(data, e + 1, n)
  {
  }

  lemma OneArgument(span: Span, data: string, key: string, value: string)
    requires key == Substring(data, span.start, span.sign) && value == Substring(data, span.sign + 1, span.end)
    ensures AllArguments([span], data) == [RequestArgument(key, Decode(value))]
  {
    assert [span][1..] == [];
  }

  lemma OneDecoded(key: string, value: string)
    ensures DecodeAll([(key, value)]) == [RequestArgument(key, Decode(value))]
  {
    assert [(key, value)][1..] == [];
  }

  lemma FoundIsSplit(data: string, pos: nat)
    requires pos <= |data|
    ensures AllArguments(Found(data, pos), data) == DecodeAll(Split(SegmentAt(data, pos)))
  {
    var e, n := IndexOf(data, '=', pos), IndexOf(data, '&', pos);
    EqualSignInSegment(data, pos);
    if !(e == -1 || (e > n && n != -1)) {
      SplitsAt(data, pos, e, n, SegmentAt(data, pos));
    }
  }

  lemma SplitsAt(data: string, pos: nat, e: nat, n: int, t: string)
    requires pos <= e < |data| && (n == -1 || e < n <= |data|) && t == Substring(data, pos, n)
    requires IndexOf(t, '=', 0) == e - pos
    ensures AllArguments([Span(pos, e, n)], data) == DecodeAll(Split(t))
  {
    var key, value := Substring(data, pos, e), Substring(data, e + 1, n);
    SubstringOfSubstring(data, pos, e, n);
    SplitIs(t, e - pos, key, value);
    OneArgument(Span(pos, e, n), data, key, value);
  }

  lemma SplitIs(t: string, e: nat, key: string, value: string)
    requires IndexOf(t, '=', 0) == e && key == t[..e] && value == t[e + 1..]
    ensures DecodeAll(Split(t)) == [RequestArgument(key, Decode(value))]
  {
    OneDecoded(key, value);
  }

  lemma SegmentsUnfold(s: string, i: int)
    requires i == IndexOf(s, '&', 0)
    ensures Segments(s) == if i == -1 then [s] else [s[..i]] + Segments(s[i + 1..])
  {
  }

  lemma SegmentsStep(data: string, pos: nat)
    requires pos <= |data|
    ensures var n := IndexOf(data, '&', pos);
            Segments(data[pos..]) == [SegmentAt(data, pos)] + (if n == -1 then [] else Segments(data[n + 1..]))
  {
    var n, s := IndexOf(data, '&', pos), data[pos..];
    IndexInSuffix(data, '&', pos);
    SegmentsUnfold(s, if n == -1 then -1 else n - pos);
    SuffixSlices(data, pos, n);
  }

  lemma SuffixSlices(data: string, pos: nat, n: int)
    requires pos <= |data| && (n == -1 || pos <= n < |data|)
    ensures Substring(data, pos, n) == if n == -1 then data[pos..] else data[pos..][..n - pos]
    ensures n != -1 ==> data[pos..][n - pos + 1..] == data[n + 1..]
  {
  }

  lemma Combine(a: seq<Span>, b: seq<Span>, data: string, t: string, rest: seq<string>)
    requires AllArguments(a, data) == DecodeAll(Split(t)) && AllArguments(b, data) == DecodeAll(SplitAll(rest))
    ensures AllArguments(a + b, data) == DecodeAll(SplitAll([t] + rest))
  {
    ArgumentsAppend(a, b, data);
    SplitAllCons(t, rest);
    DecodeAllAppend(Split(t), SplitAll(rest));
  }

  /** The segments from `pos` on, found by the same search. */
  function SegmentsFrom(data: string, pos: nat): seq<string>
    requires pos <= |data|
    decreases |data| - pos
  {
    var n := IndexOf(data, '&', pos);
    [SegmentAt(data, pos)] + if n == -1 then [] else SegmentsFrom(data, n + 1)
  }

  lemma {:induction false} SegmentsFromIs(data: string, pos: nat)
    requires pos <= |data|
    ensures SegmentsFrom(data, pos) == Segments(data[pos..])
    decreases |data| - pos
  {
    var n := IndexOf(data, '&', pos);
    SegmentsStep(data, pos);
    if n != -1 {
      SegmentsFromIs(data, n + 1);
    }
  }

  lemma FoundHere(data: string, pos: nat, later: seq<Span>, rest: seq<string>, all: seq<Span>, segments: seq<string>)
    requires pos <= |data| && all == Found(data, pos) + later && segments == [SegmentAt(data, pos)] + rest
    requires AllArguments(later, data) == DecodeAll(SplitAll(rest))
    ensures AllArguments(all, data) == DecodeAll(SplitAll(segments))
  {
    FoundIsSplit(data, pos);
    Combine(Found(data, pos), later, data, SegmentAt(data, pos), rest);
  }

  lemma LastFound(data: string, pos: nat)
    requires pos <= |data| && IndexOf(data, '&', pos) == -1
    ensures FoundFrom(data, pos) == Found(data, pos) + [] && SegmentsFrom(data, pos) == [SegmentAt(data, pos)] + []
  {
  }

  lemma NextFound(data: string, pos: nat, n: nat)
    requires pos <= n < |data| && n == IndexOf(data, '&', pos)
    ensures FoundFrom(data, pos) == Found(data, pos) + FoundFrom(data, n + 1)
  {
  }

  lemma NextSegment(data: string, pos: nat, n: nat)
    requires pos <= n < |data| && n == IndexOf(data, '&', pos)
    ensures SegmentsFrom(data, pos) == [SegmentAt(data, pos)] + SegmentsFrom(data, n + 1)
  {
  }

  lemma {:induction false} FoundInSegments(data: string, pos: nat, found: seq<Span>, segments: seq<string>)
    requires pos <= |data| && found == FoundFrom(data, pos) && segments == SegmentsFrom(data, pos)
    ensures AllArguments(found, data) == DecodeAll(SplitAll(segments))
    decreases |data| - pos
  {
    var n := IndexOf(data, '&', pos);
    if n == -1 {
      LastFound(data, pos);
      FoundHere(data, pos, [], [], found, segments);
    } else {
      var later, rest := FoundFrom(data, n + 1), SegmentsFrom(data, n + 1);
      FoundInSegments(data, n + 1, later, rest);
      NextFound(data, pos, n);
      NextSegment(data, pos, n);
      FoundHere(data, pos, later, rest, found, segments);
    }
  }

  /** Position chasing computes the segment-wise result. */
  lemma FoundFromIsSegments(data: string, pos: nat)
    requires pos <= |data|
    ensures AllArguments(FoundFrom(data, pos), data) == DecodeAll(SplitAll(Segments(data[pos..])))
  {
    FoundInSegments(data, pos, FoundFrom(data, pos), SegmentsFrom(data, pos));
    SegmentsFromIs(data, pos);
  }

  /** There are as many turns as segments. */
  lemma {:induction false} TurnsAreSegments(data: string, pos: nat)
    requires pos <= |data|
    ensures TurnsFrom(data, pos) == |Segments(data[pos..])|
    decreases |data| - pos
  {
    var n := IndexOf(data, '&', pos);
    SegmentsStep(data, pos);
    if n != -1 {
      TurnsAreSegments(data, n + 1);
    }
  }

  lemma SplitAllCons(t: string, segments: seq<string>)
    ensures SplitAll([t] + segments) == Split(t) + SplitAll(segments)
  {
    assert ([t] + segments)[1..] == segments;
  }

  method UrlDecode(text: string) returns (decoded: string)
    ensures decoded == Decode(text)
  {
    decoded := "";
    var len := |text|;
    var i := 0;
    assert text[0..] == text;
    while i < len
      invariant 0 <= i <= len
      invariant decoded + Decode(text[i..]) == Decode(text)
    {
      DecodeStep(text, i);
      var decodedChar;
      var encodedChar := text[i];
      i := i + 1;
      if encodedChar == '%' && i + 1 < len {
        decodedChar := HexPair(text[i], text[i + 1]) as char;
        i := i + 2;
      } else {
        decodedChar := if encodedChar == '+' then ' ' else encodedChar;
      }
      AppendAssociates(decoded, [decodedChar], Decode(text[i..]));
      decoded := decoded + [decodedChar];
    }
  }

  lemma DecodeStep(text: string, i: nat)
    requires i < |text|
    ensures Decode(text[i..]) ==
            if text[i] == '%' && i + 2 < |text| then [HexPair(text[i + 1], text[i + 2]) as char] + Decode(text[i + 3..])
            else [if text[i] == '+' then ' ' else text[i]] + Decode(text[i + 1..])
  {
    assert text[i..][1..] == text[i + 1..];
    if i + 2 < |text| {
      assert text[i..][3..] == text[i + 3..];
    }
  }

  /** What is `done` of all that is to be found, and the turns that are left. */
  ghost predicate Underway(data: string, pos: nat, all: seq<Span>, done: seq<Span>, turns: nat)
    requires pos <= |data|
  {
    all == done + FoundFrom(data, pos) && turns == TurnsFrom(data, pos)
  }

  lemma UnderwayAtStart(data: string, all: seq<Span>, turns: nat)
    requires all == FoundFrom(data, 0) && turns == TurnsFrom(data, 0)
    ensures Underway(data, 0, all, [], turns)
  {
  }

  lemma MovesOver(all: seq<Span>, done: seq<Span>, now: seq<Span>, rest: seq<Span>)
    requires all == done + (now + rest)
    ensures all == done + now + rest
    ensures rest == [] ==> all == done + now
  {
  }

  lemma FoundMovesOver(data: string, pos: nat, n: int, all: seq<Span>, done: seq<Span>, now: seq<Span>)
    requires pos <= |data| && n == IndexOf(data, '&', pos) && now == Found(data, pos)
    requires all == done + FoundFrom(data, pos)
    ensures all == done + now + if n == -1 then [] else FoundFrom(data, n + 1)
  {
    MovesOver(all, done, now, if n == -1 then [] else FoundFrom(data, n + 1));
  }

  lemma TurnsStep(data: string, pos: nat, n: int)
    requires pos <= |data| && n == IndexOf(data, '&', pos)
    ensures TurnsFrom(data, pos) == if n == -1 then 1 else 1 + TurnsFrom(data, n + 1)
  {
  }

  lemma UnderwayOn(data: string, pos: nat, n: int, all: seq<Span>, done: seq<Span>, now: seq<Span>, turns: nat)
    requires pos <= |data| && n == IndexOf(data, '&', pos) && now == Found(data, pos)
    requires Underway(data, pos, all, done, turns)
    ensures if n == -1 then done + now == all && turns == 1
            else turns > 1 && Underway(data, n + 1, all, done + now, turns - 1)
  {
    FoundMovesOver(data, pos, n, all, done, now);
    TurnsStep(data, pos, n);
    AppendNil(done + now);
  }

  class WebServer {
    var currentArgs: array<RequestArgument>
    var currentArgCount: nat

    ghost predicate Valid()
      reads this
    {
      currentArgCount <= currentArgs.Length
    }

    ghost function Args(): seq<RequestArgument>
      reads this, currentArgs
      requires Valid()
    {
      currentArgs[..currentArgCount]
    }

    constructor ()
      ensures Valid() && Args() == []
    {
      currentArgs := new RequestArgument[0];
      currentArgCount := 0;
    }

    /** One more than the number of '&' in the text: the number of its segments. */
    static method CountSegments(data: string) returns (count: nat)
      ensures count == |Segments(data)| == TurnsFrom(data, 0)
    {
      TurnsAreSegments(data, 0);
      assert data[0..] == data;
      count := 1;
      var i: int := 0;
      while i < |data|
        invariant 0 <= i <= |data|
        invariant count + TurnsFrom(data, i) == TurnsFrom(data, 0) + 1
        decreases |data| - i
      {
        i := IndexOf(data, '&', i);
        if i == -1 {
          break;
        }
        i := i + 1;
        count := count + 1;
      }
    }

    /**
     * One turn of the parsing loop: looks up the two positions and stores the argument between them, if the
     * segment has one. `next` is the position of the '&' that ends the segment, or -1.
     */
    static method ParseTurn(data: string, pos: nat, args: array<RequestArgument>, iarg: nat)
      returns (next: int, count: nat)
      requires iarg < args.Length
      modifies args
      ensures next == IndexOf(data, '&', pos)
      ensures count == iarg + |Found(data, pos)| && count <= args.Length
      ensures args[..count] == old(args[..iarg]) + AllArguments(Found(data, pos), data)
    {
      var equalSignIndex := IndexOf(data, '=', pos);
      next := IndexOf(data, '&', pos);
      count := iarg;
      if equalSignIndex == -1 || (equalSignIndex > next && next != -1) {
        AppendNil(args[..iarg]);
        return;
      }
      var value := UrlDecode(Substring(data, equalSignIndex + 1, next));
      args[iarg] := RequestArgument(Substring(data, pos, equalSignIndex), value);
      count := count + 1;
    }

    /** The new arguments are exactly the segments with an '=', in order; the array allotted always suffices. */
    method ParseArguments(data: string)
      modifies this
      ensures Valid() && fresh(currentArgs)
      ensures Args() == Expected(data)
    {
      if |data| == 0 {
        assert Segments(data) == [data] && SplitAll([data]) == [];
        currentArgCount := 0;
        currentArgs := new RequestArgument[1];
        assert Args() == [] && Expected(data) == [];
        return;
      }
      var count := CountSegments(data);
      var args := new RequestArgument[count + 1];
      var iarg := ParseAll(data, count, args);
      FoundFromIsSegments(data, 0);
      assert data[0..] == data;
      currentArgs := args;
      currentArgCount := iarg;
    }

    /** One turn of the loop, with what it leaves to be found and the turns it leaves for that. */
    static method ParseNext(data: string, pos: nat, args: array<RequestArgument>, iarg: nat,
                            ghost all: seq<Span>, ghost done: seq<Span>, ghost turns: nat)
      returns (next: int, count: nat, ghost now: seq<Span>)
      requires iarg < args.Length && pos <= |data| && Underway(data, pos, all, done, turns)
      requires args[..iarg] == AllArguments(done, data)
      modifies args
      ensures iarg <= count <= iarg + 1 && count <= args.Length && args[..count] == AllArguments(now, data)
      ensures next == -1 || pos <= next < |data|
      ensures if next == -1 then now == all else turns > 1 && Underway(data, next + 1, all, now, turns - 1)
    {
      ghost var found := Found(data, pos);
      next, count := ParseTurn(data, pos, args, iarg);
      now := done + found;
      ArgumentsAppend(done, found, data);
      UnderwayOn(data, pos, next, all, done, found, turns);
    }

    /** The parsing loop. */
    static method ParseAll(data: string, count: nat, args: array<RequestArgument>) returns (iarg: nat)
      requires count == TurnsFrom(data, 0) && args.Length == count + 1
      modifies args
      ensures iarg <= count && args[..iarg] == AllArguments(FoundFrom(data, 0), data)
    {
      var pos := 0;
      iarg := 0;
      ghost var all, done: seq<Span>, turns := FoundFrom(data, 0), [], count;
      UnderwayAtStart(data, all, turns);
      while iarg < count
        invariant iarg + turns <= count && 0 <= pos <= |data|
        invariant args[..iarg] == AllArguments(done, data)
        invariant Underway(data, pos, all, done, turns)
        decreases turns
      {
        var next;
        next, iarg, done := ParseNext(data, pos, args, iarg, all, done, turns);
        if next == -1 {
          return;
        }
        pos := next + 1;
        turns := turns - 1;
      }
    }
  }
}
