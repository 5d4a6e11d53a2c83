/**
 Sender extraction: `re.search(r'(?<=\<)(.*)(?=\>)', message['From']).group(0)`.

 A match is a slice s[a..b] preceded by '<', followed by '>', and free of
 '\n' (Python's `.` matches every character except the newline). `re.search`
 takes the leftmost start that can match at all, and the greedy `.*` then
 takes the longest slice that still ends before a '>'.
 */
module Sender {
  import opened MailTypes

  predicate NoNewline(s: string, lo: int, hi: int)
    requires 0 <= lo <= hi <= |s|
  {
    forall k :: lo <= k < hi ==> s[k] != '\n'
  }

  /** s[a..b] is a match of the pattern at start a. */
  predicate IsMatch(s: string, a: int, b: int) {
    1 <= a <= b < |s| && s[a - 1] == '<' && s[b] == '>' && NoNewline(s, a, b)
  }

  /** s[a..b] is the match `re.search` returns: leftmost start, then longest. */
  ghost predicate IsSearchResult(s: string, a: int, b: int) {
    && IsMatch(s, a, b)
    && (forall a', b' :: a' < a ==> !IsMatch(s, a', b'))
    && (forall b' :: IsMatch(s, a, b') ==> b' <= b)
  }

  /** Index of the end of the line that starts at or before i. */
  function LineEnd(s: string, i: nat): (e: nat)
    requires i <= |s|
    ensures i <= e <= |s|
    ensures NoNewline(s, i, e)
    ensures e < |s| ==> s[e] == '\n'
    decreases |s| - i
  {
    if i == |s| || s[i] == '\n' then i else LineEnd(s, i + 1)
  }

  /** The last '>' in s[lo..hi], if any. */
  function LastClose(s: string, lo: nat, hi: nat): (r: Option<nat>)
    requires lo <= hi <= |s|
    ensures r.Some? ==> lo <= r.value < hi && s[r.value] == '>'
    ensures r.Some? ==> forall k :: r.value < k < hi ==> s[k] != '>'
    ensures r.None? ==> forall k :: lo <= k < hi ==> s[k] != '>'
    decreases hi - lo
  {
    if hi == lo then None
    else if s[hi - 1] == '>' then Some(hi - 1)
    else LastClose(s, lo, hi - 1)
  }

  /** The longest match starting exactly at a, if any. */
  function MatchAt(s: string, a: nat): (r: Option<nat>)
    requires 1 <= a <= |s|
    ensures r.Some? ==> IsMatch(s, a, r.value) && forall b' :: IsMatch(s, a, b') ==> b' <= r.value
    ensures r.None? ==> forall b' :: !IsMatch(s, a, b')
  {
    if s[a - 1] != '<' then None
    else
      var e := LineEnd(s, a);
      var r := LastClose(s, a, e);
      assert forall b' :: IsMatch(s, a, b') ==> b' < e by {
        forall b' | IsMatch(s, a, b') ensures b' < e {
          if e < |s| {
            assert s[e] == '\n';
          }
        }
      }
      if r.Some? then
        assert NoNewline(s, a, r.value);
        r
      else r
  }

  /** The scan of `re.search` over the start positions a, a+1, ... */
  function SearchFrom(s: string, a: nat): (r: Option<(nat, nat)>)
    requires 1 <= a
    ensures r.Some? ==> a <= r.value.0 && IsMatch(s, r.value.0, r.value.1)
    ensures r.Some? ==> forall a', b' :: a <= a' < r.value.0 ==> !IsMatch(s, a', b')
    ensures r.Some? ==> forall b' :: IsMatch(s, r.value.0, b') ==> b' <= r.value.1
    ensures r.None? ==> forall a', b' :: a <= a' ==> !IsMatch(s, a', b')
    decreases |s| + 1 - a
  {
    if a > |s| then None
    else
      match MatchAt(s, a)
      case Some(b) => Some((a, b))
      case None => SearchFrom(s, a + 1)
  }

  /** `re.search(...)` on a present header: the matched text, or None. */
  function Search(s: string): (r: Option<string>)
    ensures r.None? <==> forall a, b :: !IsMatch(s, a, b)
    ensures r.Some? ==> exists a, b :: IsSearchResult(s, a, b) && r.value == s[a..b]
  {
    match SearchFrom(s, 1)
    case None => None
    case Some((a, b)) =>
      assert IsSearchResult(s, a, b);
      Some(s[a..b])
  }

  /** The sender of `__formate_response_message`: a missing From header and
      a header without an angle-bracketed address both raise. */
  function ExtractSender(from: Option<string>): (r: Result<string>)
    ensures from.None? ==> r == Err(MissingFromHeader)
    ensures from.Some? && r.Err? ==> r.error == NoAngleAddress && forall a, b :: !IsMatch(from.value, a, b)
    ensures from.Some? && r.Ok? ==> exists a, b :: IsSearchResult(from.value, a, b) && r.value == from.value[a..b]
    ensures from.Some? ==> (r.Ok? <==> exists a, b :: IsMatch(from.value, a, b))
  {
    match from
    case None => Err(MissingFromHeader)
    case Some(s) =>
      match Search(s)
      case None => Err(NoAngleAddress)
      case Some(addr) => Ok(addr)
  }

  /** The search result is unique: leftmost and longest pin down one slice. */
  lemma SearchResultUnique(s: string, a: int, b: int, a': int, b': int)
    requires IsSearchResult(s, a, b) && IsSearchResult(s, a', b')
    ensures a == a' && b == b'
  {
  }

  /** `"Name" <addr>` yields exactly `addr` when the display name holds no
      '<'. A '>' inside `addr` does no harm: the greedy match still runs to
      the final '>'. */
  lemma DisplayNameForm(name: string, addr: string)
    requires '<' !in name
    requires '\n' !in addr
    ensures ExtractSender(Some(name + "<" + addr + ">")) == Ok(addr)
  {
    var s := name + "<" + addr + ">";
    var a, b := |name| + 1, |name| + 1 + |addr|;
    assert s[a..b] == addr;
    assert IsMatch(s, a, b);
    forall a', b' | a' < a ensures !IsMatch(s, a', b') {
      if 1 <= a' {
        assert s[a' - 1] == name[a' - 1];
      }
    }
    assert forall k :: a <= k < b ==> s[k] == addr[k - a];
    assert IsSearchResult(s, a, b);
    var r := ExtractSender(Some(s));
    assert r.Ok?;
    var a2, b2 :| IsSearchResult(s, a2, b2) && r.value == s[a2..b2];
    SearchResultUnique(s, a, b, a2, b2);
  }

  /** On a single line the sender is the text strictly between the first '<'
      and the last '>', whenever that '>' comes after that '<'. */
  lemma SingleLine(s: string, lt: nat, gt: nat)
    requires '\n' !in s
    requires lt < gt < |s| && s[lt] == '<' && s[gt] == '>'
    requires forall k :: 0 <= k < lt ==> s[k] != '<'
    requires forall k :: gt < k < |s| ==> s[k] != '>'
    ensures ExtractSender(Some(s)) == Ok(s[lt + 1..gt])
  {
    var a, b := lt + 1, gt;
    assert IsMatch(s, a, b);
    forall a', b' | a' < a ensures !IsMatch(s, a', b') {
      if 1 <= a' < |s| {
        assert s[a' - 1] != '<';
      }
    }
    assert IsSearchResult(s, a, b);
    var r := ExtractSender(Some(s));
    var a2, b2 :| IsSearchResult(s, a2, b2) && r.value == s[a2..b2];
    SearchResultUnique(s, a, b, a2, b2);
  }

  /** A quoted display name may itself hold a '<' (`"a<b" <x@y>`). The
      leftmost '<' then starts the match, so the sender is not the address. */
  lemma QuotedNameWithAngle()
    ensures ExtractSender(Some("\"a<b\" <x@y>")) == Ok("b\" <x@y")
  {
    var s := "\"a<b\" <x@y>";
    SingleLine(s, 2, |s| - 1);
    assert s[3..|s| - 1] == "b\" <x@y";
  }
}
