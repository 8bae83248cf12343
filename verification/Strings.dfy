/**
 Splitting and joining strings (main/CoapServer.cpp), and the section name of an
 sdf-mapping key (main/include/BridgeUtils.h).
 */
module Strings {
  import opened Common

  // size_t has 32 bits on the ESP32 targets; npos is its largest value.
  const SIZE_MAX: nat := 0xFFFF_FFFF

  /** A std::string: always shorter than npos. */
  type cstring = s: string | |s| < SIZE_MAX

  // ----- Specification of splitting -----

  /** The fields of s between the occurrences of d, read off character by character. */
  function Split(s: string, d: char): (ps: seq<string>)
    ensures ps != []
  {
    if s == "" then [""] else Prepend(s[0], Split(s[1..], d), d)
  }

  /** A delimiter in front starts a new field; any other character lengthens the first one. */
  function Prepend(c: char, ps: seq<string>, d: char): (r: seq<string>)
    requires ps != []
    ensures r != []
  {
    if c == d then [""] + ps else [[c] + ps[0]] + ps[1..]
  }

  function Join(ps: seq<string>, d: char): string
    requires ps != []
  {
    if |ps| == 1 then ps[0] else ps[0] + [d] + Join(ps[1..], d)
  }

  ghost predicate AllFree(ps: seq<string>, d: char) {
    forall i :: 0 <= i < |ps| ==> d !in ps[i]
  }

  function Count(s: string, d: char): nat {
    if s == "" then 0 else (if s[0] == d then 1 else 0) + Count(s[1..], d)
  }

  /** Text without the delimiter only lengthens the first field. */
  lemma {:induction false} SplitFreePrefix(p: string, s: string, d: char)
    requires d !in p
    ensures Split(p + s, d) == [p + Split(s, d)[0]] + Split(s, d)[1..]
  {
    var ps := Split(s, d);
    if p == "" {
      assert p + s == s && p + ps[0] == ps[0];
    } else {
      assert (p + s)[1..] == p[1..] + s;
      SplitFreePrefix(p[1..], s, d);
      assert p == [p[0]] + p[1..];
      assert [p[0]] + (p[1..] + ps[0]) == p + ps[0];
    }
  }

  lemma SplitFree(p: string, d: char)
    requires d !in p
    ensures Split(p, d) == [p]
  {
    SplitFreePrefix(p, "", d);
    assert p + "" == p;
  }

  lemma SplitField(p: string, s: string, d: char)
    requires d !in p
    ensures Split(p + [d] + s, d) == [p] + Split(s, d)
  {
    SplitFreePrefix(p, [d] + s, d);
    assert p + ([d] + s) == p + [d] + s;
    assert ([d] + s)[1..] == s && p + "" == p;
  }

  /** A delimiter anywhere separates the fields before it from the fields after it. */
  lemma {:induction false} SplitConcat(a: string, b: string, d: char)
    ensures Split(a + [d] + b, d) == Split(a, d) + Split(b, d)
  {
    if a == "" {
      assert a + [d] + b == [d] + b;
      assert ([d] + b)[1..] == b;
    } else {
      SplitConcat(a[1..], b, d);
      SplitFront(a, [d] + b, d);
      AppendAssoc(a, [d], b);
      AppendAssoc(a[1..], [d], b);
      PrependConcat(a[0], Split(a[1..], d), Split(b, d), d);
    }
  }

  lemma SplitFront(a: string, b: string, d: char)
    requires a != ""
    ensures Split(a + b, d) == Prepend(a[0], Split(a[1..] + b, d), d)
  {
    assert (a + b)[1..] == a[1..] + b;
  }

  lemma PrependConcat(c: char, ps: seq<string>, qs: seq<string>, d: char)
    requires ps != []
    ensures Prepend(c, ps + qs, d) == Prepend(c, ps, d) + qs
  {
  }

  lemma AppendAssoc<T>(a: seq<T>, b: seq<T>, c: seq<T>)
    ensures (a + b) + c == a + (b + c)
  {
  }

  /** Splitting loses nothing: the fields hold no delimiter and join to the input. */
  lemma {:induction false} JoinOfSplit(s: string, d: char)
    ensures AllFree(Split(s, d), d)
    ensures Join(Split(s, d), d) == s
  {
    if s != "" {
      JoinOfSplit(s[1..], d);
      var rest := Split(s[1..], d);
      assert s == [s[0]] + s[1..];
      if s[0] == d {
        assert ([""] + rest)[1..] == rest;
      } else {
        JoinGrow(s[0], rest, d);
      }
    }
  }

  lemma JoinGrow(c: char, ps: seq<string>, d: char)
    requires ps != []
    ensures Join([[c] + ps[0]] + ps[1..], d) == [c] + Join(ps, d)
  {
    if |ps| > 1 {
      assert ([[c] + ps[0]] + ps[1..])[1..] == ps[1..];
    }
  }

  /** There is one field more than there are delimiters. */
  lemma {:induction false} FieldCount(s: string, d: char)
    ensures |Split(s, d)| == Count(s, d) + 1
  {
    if s != "" {
      FieldCount(s[1..], d);
    }
  }

  lemma {:induction false} SplitOfJoin(ps: seq<string>, d: char)
    requires ps != [] && AllFree(ps, d)
    ensures Split(Join(ps, d), d) == ps
  {
    if |ps| == 1 {
      SplitFree(ps[0], d);
    } else {
      SplitOfJoin(ps[1..], d);
      SplitField(ps[0], Join(ps[1..], d), d);
    }
  }

  /** Split(s, d) is the only list of delimiter-free fields that joins to s. */
  lemma SplitIsUnique(s: string, ps: seq<string>, d: char)
    requires ps != []
    ensures (AllFree(ps, d) && Join(ps, d) == s) <==> ps == Split(s, d)
  {
    JoinOfSplit(s, d);
    if AllFree(ps, d) {
      SplitOfJoin(ps, d);
    }
  }

  // ----- The library calls -----

  /** std::string::find(c, from) */
  function Find(s: string, c: char, from: nat): (r: Option<nat>)
    ensures r.None? ==> forall i :: from <= i < |s| ==> s[i] != c
    ensures r.Some? ==> from <= r.value < |s| && s[r.value] == c && forall i :: from <= i < r.value ==> s[i] != c
    decreases |s| - from
  {
    if from >= |s| then None
    else if s[from] == c then Some(from)
    else Find(s, c, from + 1)
  }

  /** std::string::rfind(c, pos): the last occurrence at or before pos. */
  function RFind(s: string, c: char, pos: nat): (r: Option<nat>)
    ensures r.None? ==> forall i :: 0 <= i < |s| && i <= pos ==> s[i] != c
    ensures r.Some? ==>
              && r.value < |s| && r.value <= pos && s[r.value] == c
              && forall i :: r.value < i < |s| && i <= pos ==> s[i] != c
    decreases pos
  {
    if pos < |s| && s[pos] == c then Some(pos)
    else if pos == 0 then None
    else RFind(s, c, pos - 1)
  }

  /** std::string::substr(pos, n) */
  function Substr(s: string, pos: nat, n: nat): string
    requires pos <= |s|
  {
    if n < |s| - pos then s[pos..pos + n] else s[pos..]
  }

  /** Subtraction of size_t values: wraps around at zero. */
  function SizeSub(a: nat, b: nat): nat {
    (a - b) % (SIZE_MAX + 1)
  }

  // ----- SplitString -----

  /** One turn of the loop: the text from start on is its next field and the text after the delimiter. */
  lemma NextField(str: string, start: nat, end: nat, d: char)
    requires start <= |str| && Find(str, d, start) == Some(end)
    ensures Split(str[start..], d) == [str[start..end]] + Split(str[end + 1..], d)
  {
    CutText(str, start, end);
    SplitField(str[start..end], str[end + 1..], d);
  }

  lemma CutText(str: string, start: nat, end: nat)
    requires start <= end < |str|
    ensures str[start..] == str[start..end] + [str[end]] + str[end + 1..]
  {
  }

  lemma TakeField(tokens: seq<string>, str: string, start: nat, end: nat, d: char)
    requires start <= |str| && Find(str, d, start) == Some(end)
    ensures tokens + Split(str[start..], d) == (tokens + [str[start..end]]) + Split(str[end + 1..], d)
  {
    NextField(str, start, end, d);
    AppendAssoc(tokens, [str[start..end]], Split(str[end + 1..], d));
  }

  lemma LastFieldFree(str: string, start: nat, d: char)
    requires start <= |str| && Find(str, d, start) == None
    ensures Split(str[start..], d) == [str[start..]]
  {
    SplitFree(str[start..], d);
  }

  lemma WholeString(str: string, d: char)
    ensures [] + Split(str[0..], d) == Split(str, d)
  {
    assert str[0..] == str;
  }

  method SplitString(str: string, delimiter: char) returns (tokens: seq<string>)
    ensures tokens == Split(str, delimiter)
  {
    tokens := [];
    var start := 0;
    var end := Find(str, delimiter, 0);
    WholeString(str, delimiter);
    while end.Some?
      invariant start <= |str|
      invariant end == Find(str, delimiter, start)
      invariant tokens + Split(str[start..], delimiter) == Split(str, delimiter)
      decreases |str| - start
    {
      TakeField(tokens, str, start, end.value, delimiter);
      tokens := tokens + [str[start..end.value]];
      start := end.value + 1;
      end := Find(str, delimiter, start);
    }
    LastFieldFree(str, start, delimiter);
    tokens := tokens + [str[start..]];
  }

  // ----- ExtractBetweenSlashes -----

  function ExtractBetweenSlashes(str: cstring): string {
    var last := RFind(str, '/', SIZE_MAX);
    if last.None? then ""
    else
      var prev := RFind(str, '/', SizeSub(last.value, 1));
      if prev.None? then "" else Between(str, prev.value, last.value)
  }

  function Between(str: cstring, prev: nat, last: nat): string
    requires prev < |str|
  {
    Substr(str, prev + 1, SizeSub(last, prev + 1))
  }

  /**
   The section an sdf-mapping key names: its second-to-last field. A key whose only slash is its
   first character names everything after that slash.
   */
  function SectionName(key: string): string {
    var ps := Split(key, '/');
    if |ps| >= 3 then ps[|ps| - 2]
    else if |ps| == 2 && ps[0] == "" then ps[1]
    else ""
  }

  lemma ExtractIsSectionName(str: cstring)
    ensures ExtractBetweenSlashes(str) == SectionName(str)
  {
    var last := RFind(str, '/', SIZE_MAX);
    if last.None? {
      SplitFree(str, '/');
    } else if last.value == 0 {
      OneSlash(str, 0);
      FromTheStart(str);
    } else {
      SizeSubSmall(last.value, 1);
      if RFind(str, '/', last.value - 1).None? {
        OneSlash(str, last.value);
      } else {
        BetweenLastTwo(str, RFind(str, '/', last.value - 1).value, last.value);
      }
    }
  }

  /** When the only slash comes first, the unsigned subtractions wrap: the second search finds it again. */
  lemma FromTheStart(str: cstring)
    requires RFind(str, '/', SIZE_MAX) == Some(0)
    ensures ExtractBetweenSlashes(str) == str[1..]
  {
    assert SizeSub(0, 1) == SIZE_MAX;
  }

  lemma BetweenLastTwo(str: cstring, p: nat, l: nat)
    requires 0 < l && RFind(str, '/', SIZE_MAX) == Some(l) && RFind(str, '/', l - 1) == Some(p)
    ensures ExtractBetweenSlashes(str) == SectionName(str)
  {
    ExtractsBetween(str, p, l);
    LastTwoFields(str, p, l);
  }

  lemma ExtractsBetween(str: cstring, p: nat, l: nat)
    requires 0 < l && RFind(str, '/', SIZE_MAX) == Some(l) && RFind(str, '/', l - 1) == Some(p)
    ensures ExtractBetweenSlashes(str) == str[p + 1..l]
  {
    SizeSubSmall(l, 1);
    BetweenIs(str, p, l);
  }

  lemma BetweenIs(str: cstring, p: nat, l: nat)
    requires p < l < |str|
    ensures Between(str, p, l) == str[p + 1..l]
  {
    SizeSubSmall(l, p + 1);
  }

  /** A key "<path>/<section>/<name>" names its section. */
  lemma SectionOfKey(key: cstring, path: string, section: string, name: string)
    requires key == path + ['/'] + (section + ['/'] + name) && '/' !in section && '/' !in name
    ensures ExtractBetweenSlashes(key) == section
  {
    ExtractIsSectionName(key);
    SplitConcat(path, section + ['/'] + name, '/');
    SplitField(section, name, '/');
    SplitFree(name, '/');
    AppendAssoc(Split(path, '/'), [section], [name]);
    SectionOf(key, Split(path, '/'), section, name);
  }

  lemma OneSlash(str: string, l: nat)
    requires l < |str| && str[l] == '/'
    requires forall i :: 0 <= i < |str| && i != l ==> str[i] != '/'
    ensures SectionName(str) == if l == 0 then str[1..] else ""
  {
    LastField(str, l);
    SplitFree(str[..l], '/');
  }

  lemma LastTwoFields(str: string, p: nat, l: nat)
    requires p < l < |str| && str[p] == '/' && str[l] == '/'
    requires forall i :: p < i < l || l < i < |str| ==> str[i] != '/'
    ensures SectionName(str) == str[p + 1..l]
  {
    LastField(str, l);
    LastField(str[..l], p);
    assert str[..l][..p] == str[..p] && str[..l][p + 1..] == str[p + 1..l];
    SectionOf(str, Split(str[..p], '/'), str[p + 1..l], str[l + 1..]);
  }

  /** The last field of a string is what follows its last delimiter. */
  lemma LastField(str: string, l: nat)
    requires l < |str| && str[l] == '/'
    requires forall i :: l < i < |str| ==> str[i] != '/'
    ensures Split(str, '/') == Split(str[..l], '/') + [str[l + 1..]]
  {
    assert str == str[..l] + ['/'] + str[l + 1..];
    SplitConcat(str[..l], str[l + 1..], '/');
    SplitFree(str[l + 1..], '/');
  }

  lemma SectionOf(str: string, before: seq<string>, section: string, name: string)
    requires before != [] && Split(str, '/') == before + [section] + [name]
    ensures SectionName(str) == section
  {
    assert (before + [section] + [name])[|before|] == section;
  }

  lemma SizeSubSmall(a: nat, b: nat)
    requires b <= a <= SIZE_MAX
    ensures SizeSub(a, b) == a - b
  {
  }
}
