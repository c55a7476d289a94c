/** The keyword source: normalisation of the `name` attributes read from the
    keyword document, the deduplicated sorted vocabulary built from them, the
    outcome of one load, and the completion step that a cancelled load skips. */
module Keywords {
  import opened Text

  datatype Option<T> = None | Some(value: T)

  // ---------------------------------------------------------------------------
  // Normalisation of one name
  // ---------------------------------------------------------------------------

  const Quote: char := '"'

  /** `s.replace(/""/g, '"')`: each doubled quote, scanning left to right without
      overlap, becomes a single quote. */
  function Collapse(s: string): (r: string)
    ensures |r| <= |s|
    decreases |s|
  {
    if |s| >= 2 && s[0] == Quote && s[1] == Quote then [Quote] + Collapse(s[2..])
    else if |s| == 0 then []
    else [s[0]] + Collapse(s[1..])
  }

  /** `n` quotes in a row. */
  function QuoteRun(n: nat): (s: string)
    ensures |s| == n
    ensures forall i :: 0 <= i < n ==> s[i] == Quote
  {
    if n == 0 then [] else [Quote] + QuoteRun(n - 1)
  }

  /** A doubled quote at the front collapses to one. */
  lemma CollapsePair(t: string)
    ensures Collapse([Quote, Quote] + t) == [Quote] + Collapse(t)
  {
    assert ([Quote, Quote] + t)[2..] == t;
  }

  /** A lone quote before a non-quote stays. */
  lemma CollapseLoneQuote(rest: string)
    requires |rest| == 0 || rest[0] != Quote
    ensures Collapse([Quote] + rest) == [Quote] + Collapse(rest)
  {
    assert ([Quote] + rest)[1..] == rest;
  }

  /** An even run of `2 * m` quotes collapses to `m` quotes, whatever follows it. */
  lemma {:induction false} CollapseEvenRun(m: nat, rest: string)
    ensures Collapse(QuoteRun(2 * m) + rest) == QuoteRun(m) + Collapse(rest)
    decreases m
  {
    if m == 0 {
      assert QuoteRun(0) + rest == rest;
    } else {
      CollapseEvenRun(m - 1, rest);
      QuoteRunPair(2 * (m - 1));
      assert QuoteRun(2 * m) + rest == [Quote, Quote] + (QuoteRun(2 * (m - 1)) + rest);
      CollapsePair(QuoteRun(2 * (m - 1)) + rest);
    }
  }

  /** An odd run of `2 * m + 1` quotes before a non-quote collapses to `m + 1` quotes:
      pairs are taken from the left, and the last quote stays single. */
  lemma CollapseOddRun(m: nat, rest: string)
    requires |rest| == 0 || rest[0] != Quote
    ensures Collapse(QuoteRun(2 * m + 1) + rest) == QuoteRun(m + 1) + Collapse(rest)
  {
    assert QuoteRun(2 * m + 1) + rest == QuoteRun(2 * m) + ([Quote] + rest) by {
      QuoteRunSnoc(2 * m);
    }
    CollapseEvenRun(m, [Quote] + rest);
    CollapseLoneQuote(rest);
    QuoteRunSnoc(m);
  }

  lemma QuoteRunPair(n: nat)
    ensures QuoteRun(n + 2) == [Quote, Quote] + QuoteRun(n)
  {
    assert QuoteRun(n + 2) == [Quote] + ([Quote] + QuoteRun(n));
  }

  lemma {:induction false} QuoteRunSnoc(n: nat)
    ensures QuoteRun(n + 1) == QuoteRun(n) + [Quote]
    decreases n
  {
    if n > 0 {
      QuoteRunSnoc(n - 1);
    }
  }

  /** The escaping that `Collapse` undoes: every quote written twice. */
  function DoubleQuotes(t: string): (s: string)
    decreases |t|
  {
    if |t| == 0 then []
    else (if t[0] == Quote then [Quote, Quote] else [t[0]]) + DoubleQuotes(t[1..])
  }

  /** Collapsing undoes quote doubling. */
  lemma {:induction false} CollapseDoubleQuotes(t: string)
    ensures Collapse(DoubleQuotes(t)) == t
    decreases |t|
  {
    if |t| > 0 {
      CollapseDoubleQuotes(t[1..]);
      var rest := DoubleQuotes(t[1..]);
      if t[0] == Quote {
        assert DoubleQuotes(t) == [Quote, Quote] + rest;
        assert DoubleQuotes(t)[2..] == rest;
      } else {
        assert DoubleQuotes(t) == [t[0]] + rest;
        assert DoubleQuotes(t)[1..] == rest;
      }
      assert t == [t[0]] + t[1..];
    }
  }

  /** `s` has no two adjacent quotes. */
  predicate NoDoubledQuote(s: string) {
    forall i :: 0 <= i < |s| - 1 ==> !(s[i] == Quote && s[i + 1] == Quote)
  }

  /** A name without doubled quotes passes through `Collapse` unchanged. */
  lemma {:induction false} CollapseIdentity(s: string)
    requires NoDoubledQuote(s)
    ensures Collapse(s) == s
    decreases |s|
  {
    if |s| > 0 {
      assert NoDoubledQuote(s[1..]) by {
        forall i | 0 <= i < |s[1..]| - 1
          ensures !(s[1..][i] == Quote && s[1..][i + 1] == Quote)
        {
          assert s[1..][i] == s[i + 1] && s[1..][i + 1] == s[i + 2];
        }
      }
      CollapseIdentity(s[1..]);
      assert s == [s[0]] + s[1..];
    }
  }

  /** The characters `String.prototype.trim` removes: white space and line terminators. */
  predicate IsSpace(c: char) {
    var n := c as int;
    n == 0x09 || n == 0x0A || n == 0x0B || n == 0x0C || n == 0x0D || n == 0x20
    || n == 0xA0 || n == 0x1680 || (0x2000 <= n <= 0x200A) || n == 0x2028 || n == 0x2029
    || n == 0x202F || n == 0x205F || n == 0x3000 || n == 0xFEFF
  }

  predicate AllSpace(s: string) {
    forall i :: 0 <= i < |s| ==> IsSpace(s[i])
  }

  lemma AllSpaceCons(c: char, a: string)
    requires IsSpace(c) && AllSpace(a)
    ensures AllSpace([c] + a)
  {
    forall i | 0 <= i < |[c] + a|
      ensures IsSpace(([c] + a)[i])
    {
      if i > 0 {
        assert ([c] + a)[i] == a[i - 1];
      }
    }
  }

  lemma AllSpaceSnoc(a: string, c: char)
    requires AllSpace(a) && IsSpace(c)
    ensures AllSpace(a + [c])
  {
    forall i | 0 <= i < |a + [c]|
      ensures IsSpace((a + [c])[i])
    {
      if i < |a| {
        assert (a + [c])[i] == a[i];
      }
    }
  }

  /** Neither end of `r` is white space. */
  predicate Trimmed(r: string) {
    |r| == 0 || (!IsSpace(r[0]) && !IsSpace(r[|r| - 1]))
  }

  function TrimStart(s: string): (r: string)
    ensures |r| <= |s| && r == s[|s| - |r|..]
    ensures AllSpace(s[..|s| - |r|])
    ensures |r| == 0 || !IsSpace(r[0])
    decreases |s|
  {
    if |s| > 0 && IsSpace(s[0]) then
      var tail := s[1..];
      var r := TrimStart(tail);
      var cut := |tail| - |r|;
      assert s[cut + 1..] == tail[cut..];
      assert s[..cut + 1] == [s[0]] + tail[..cut];
      AllSpaceCons(s[0], tail[..cut]);
      r
    else s
  }

  function TrimEnd(s: string): (r: string)
    ensures |r| <= |s| && r == s[..|r|]
    ensures AllSpace(s[|r|..])
    ensures |r| == 0 || !IsSpace(r[|r| - 1])
    decreases |s|
  {
    if |s| > 0 && IsSpace(s[|s| - 1]) then
      var init := s[..|s| - 1];
      var r := TrimEnd(init);
      assert s[..|r|] == init[..|r|];
      assert s[|r|..] == init[|r|..] + [s[|s| - 1]];
      AllSpaceSnoc(init[|r|..], s[|s| - 1]);
      r
    else s
  }

  /** `r` is `s[i..]` cut short by white space on both sides. */
  predicate PaddedAt(s: string, r: string, i: nat) {
    && i + |r| <= |s|
    && s[i..i + |r|] == r
    && AllSpace(s[..i])
    && AllSpace(s[i + |r|..])
  }

  /** `s.trim()` */
  function Trim(s: string): (r: string)
    ensures Trimmed(r)
    ensures exists i: nat :: PaddedAt(s, r, i)
  {
    var t := TrimStart(s);
    var r := TrimEnd(t);
    PaddingOfParts(s, t, r);
    r
  }

  /** A white-space prefix cut from `s` leaving `t`, then a white-space suffix cut from `t`
      leaving `r`, make `r` a padded part of `s`. */
  lemma PaddingOfParts(s: string, t: string, r: string)
    requires |t| <= |s| && t == s[|s| - |t|..] && AllSpace(s[..|s| - |t|])
    requires |r| <= |t| && r == t[..|r|] && AllSpace(t[|r|..])
    ensures PaddedAt(s, r, |s| - |t|)
  {
    var i := |s| - |t|;
    assert t[..|r|] == s[i..i + |r|];
    assert t[|r|..] == s[i + |r|..];
  }

  lemma {:induction false} TrimStartPadded(pre: string, x: string)
    requires AllSpace(pre)
    requires |x| == 0 || !IsSpace(x[0])
    ensures TrimStart(pre + x) == x
    decreases |pre|
  {
    if |pre| > 0 {
      assert (pre + x)[1..] == pre[1..] + x;
      TrimStartPadded(pre[1..], x);
    } else {
      assert pre + x == x;
    }
  }

  lemma {:induction false} TrimEndPadded(x: string, post: string)
    requires AllSpace(post)
    requires |x| == 0 || !IsSpace(x[|x| - 1])
    ensures TrimEnd(x + post) == x
    decreases |post|
  {
    if |post| > 0 {
      assert (x + post)[..|x + post| - 1] == x + post[..|post| - 1];
      TrimEndPadded(x, post[..|post| - 1]);
    } else {
      assert x + post == x;
    }
  }

  /** Trimming recovers any trimmed text from any white-space padding around it. */
  lemma TrimPadded(pre: string, r: string, post: string)
    requires AllSpace(pre) && AllSpace(post) && Trimmed(r)
    ensures Trim(pre + r + post) == r
  {
    if |r| == 0 {
      assert pre + r + post == (pre + post) + [];
      TrimStartPadded(pre + post, []);
    } else {
      assert pre + r + post == pre + (r + post);
      TrimStartPadded(pre, r + post);
      TrimEndPadded(r, post);
    }
  }

  /** Trimming is idempotent. */
  lemma TrimIdempotent(s: string)
    ensures Trim(Trim(s)) == Trim(s)
  {
    var t := Trim(s);
    TrimStartPadded([], t);
    TrimEndPadded(t, []);
    assert [] + t == t && t + [] == t;
  }

  /** The normalised form of a raw name. */
  function Normalise(raw: string): (r: string)
    ensures Trimmed(r)
    ensures |r| <= |raw|
  {
    Trim(Collapse(raw))
  }

  /** The worked example of a quoted name: one pair of quotes survives. */
  lemma NormaliseQuotedName()
    ensures Normalise("\"\"Math\"\"") == "\"Math\""
  {
    var r := "\"Math\"";
    CollapseDoubleQuotes(r);
    assert DoubleQuotes(r) == "\"\"Math\"\"";
    TrimStartPadded([], r);
    TrimEndPadded(r, []);
    assert [] + r == r && r + [] == r;
  }

  /** What the loop adds to the set for one keyword element: nothing for a missing or
      empty attribute, nothing when normalisation leaves the empty string. */
  function Cleaned(raw: Option<string>): (c: Option<string>)
    ensures raw.None? || |raw.value| == 0 ==> c.None?
    ensures raw.Some? && |raw.value| > 0 ==> (c.Some? <==> |Normalise(raw.value)| > 0)
    ensures c.Some? ==> c.value == Normalise(raw.value)
  {
    match raw
    case None => None
    case Some(name) =>
      if |name| == 0 then None
      else
        var cleaned := Normalise(name);
        if |cleaned| == 0 then None else Some(cleaned)
  }

  // ---------------------------------------------------------------------------
  // Deduplicated, sorted vocabulary
  // ---------------------------------------------------------------------------

  /** The cleaning step applied to every keyword element, in document order. */
  function CleanAll(names: seq<Option<string>>): (cs: seq<Option<string>>)
    ensures |cs| == |names|
    decreases |names|
  {
    if |names| == 0 then []
    else CleanAll(names[..|names| - 1]) + [Cleaned(names[|names| - 1])]
  }

  lemma {:induction false} CleanAllAt(names: seq<Option<string>>, i: nat)
    requires i < |names|
    ensures CleanAll(names)[i] == Cleaned(names[i])
    decreases |names|
  {
    if i < |names| - 1 {
      CleanAllAt(names[..|names| - 1], i);
    }
  }

  /** `k` is the cleaned form of some name. */
  predicate IsKeyword(names: seq<Option<string>>, k: string) {
    Some(k) in CleanAll(names)
  }

  /** The keywords are exactly the non-empty normalised forms of the present names;
      in particular every keyword is trimmed. */
  lemma KeywordsAreNormalisedNames(names: seq<Option<string>>, k: string)
    ensures IsKeyword(names, k) <==>
              |k| > 0 && exists i :: 0 <= i < |names| && names[i].Some? && Normalise(names[i].value) == k
    ensures IsKeyword(names, k) ==> Trimmed(k)
  {
    var cs := CleanAll(names);
    if IsKeyword(names, k) {
      var i :| 0 <= i < |cs| && cs[i] == Some(k);
      CleanAllAt(names, i);
    }
    if |k| > 0 && exists i :: 0 <= i < |names| && names[i].Some? && Normalise(names[i].value) == k {
      var i :| 0 <= i < |names| && names[i].Some? && Normalise(names[i].value) == k;
      CleanAllAt(names, i);
      assert cs[i] == Some(k);
    }
  }

  /** The values present in `cs`, in order, duplicates included. */
  function Present(cs: seq<Option<string>>): (ks: seq<string>)
    ensures |ks| <= |cs|
    decreases |cs|
  {
    if |cs| == 0 then []
    else Present(cs[..|cs| - 1]) + match cs[|cs| - 1] case None => [] case Some(k) => [k]
  }

  lemma {:induction false} PresentMembers(cs: seq<Option<string>>)
    ensures forall k :: k in Present(cs) <==> Some(k) in cs
    decreases |cs|
  {
    if |cs| > 0 {
      var init := cs[..|cs| - 1];
      PresentMembers(init);
      assert cs == init + [cs[|cs| - 1]];
    }
  }

  /** Strictly increasing: sorted and free of duplicates. */
  predicate StrictlySorted(s: seq<string>) {
    forall i, j :: 0 <= i < j < |s| ==> Less(s[i], s[j])
  }

  /** A strictly sorted list has no duplicates. */
  lemma SortedDistinct(s: seq<string>)
    requires StrictlySorted(s)
    ensures forall i, j :: 0 <= i < |s| && 0 <= j < |s| && i != j ==> s[i] != s[j]
  {
    forall i, j | 0 <= i < |s| && 0 <= j < |s| && i != j
      ensures s[i] != s[j]
    {
      if i < j {
        LessIrreflexive(s[i]);
      } else {
        LessIrreflexive(s[j]);
      }
    }
  }

  lemma SortedCons(x: string, s: seq<string>)
    requires StrictlySorted(s)
    requires forall k :: k in s ==> Less(x, k)
    ensures StrictlySorted([x] + s)
  {
    forall i, j | 0 <= i < j < |[x] + s|
      ensures Less(([x] + s)[i], ([x] + s)[j])
    {
      if i > 0 {
        assert ([x] + s)[i] == s[i - 1];
      }
      assert ([x] + s)[j] == s[j - 1];
    }
  }

  /** Insert `x` into a strictly sorted list unless it is already there. */
  function Insert(x: string, s: seq<string>): (r: seq<string>)
    requires StrictlySorted(s)
    ensures StrictlySorted(r)
    ensures forall k :: k in r <==> k in s || k == x
    decreases |s|
  {
    if |s| == 0 then [x]
    else if x == s[0] then s
    else if Less(x, s[0]) then
      assert forall k :: k in s ==> Less(x, k) by {
        forall k | k in s
          ensures Less(x, k)
        {
          if k != s[0] {
            var j :| 0 <= j < |s| && s[j] == k;
            LessTransitive(x, s[0], k);
          }
        }
      }
      SortedCons(x, s);
      [x] + s
    else
      var rest := Insert(x, s[1..]);
      LessTotal(x, s[0]);
      assert forall k :: k in rest ==> Less(s[0], k) by {
        forall k | k in rest
          ensures Less(s[0], k)
        {
          if k != x {
            var j :| 0 <= j < |s[1..]| && s[1..][j] == k;
            assert s[j + 1] == k;
          }
        }
      }
      SortedCons(s[0], rest);
      assert s == [s[0]] + s[1..];
      [s[0]] + rest
  }

  /** A strictly sorted list is determined by its elements. */
  lemma {:induction false} SortedUnique(a: seq<string>, b: seq<string>)
    requires StrictlySorted(a) && StrictlySorted(b)
    requires forall k :: k in a <==> k in b
    ensures a == b
    decreases |a|
  {
    if |a| > 0 {
      assert a[0] in b;
    }
    if |b| > 0 {
      assert b[0] in a;
    }
    if |a| > 0 {
      if a[0] != b[0] {
        assert a[0] in a && b[0] in b;
        var i :| 0 <= i < |a| && a[i] == b[0];
        var j :| 0 <= j < |b| && b[j] == a[0];
        LessAsymmetric(a[0], b[0]);
        assert false;
      }
      forall k
        ensures k in a[1..] <==> k in b[1..]
      {
        if k in a[1..] {
          var i :| 1 <= i < |a| && a[i] == k;
          LessIrreflexive(a[0]);
          assert k in b;
        }
        if k in b[1..] {
          var j :| 1 <= j < |b| && b[j] == k;
          LessIrreflexive(b[0]);
          assert k in a;
        }
      }
      SortedUnique(a[1..], b[1..]);
      assert a == [a[0]] + a[1..] && b == [b[0]] + b[1..];
    }
  }

  /** Every element of `ks` inserted into the empty list, left to right. */
  function InsertAll(ks: seq<string>): (r: seq<string>)
    ensures StrictlySorted(r)
    ensures forall k :: k in r <==> k in ks
    decreases |ks|
  {
    if |ks| == 0 then []
    else Insert(ks[|ks| - 1], InsertAll(ks[..|ks| - 1]))
  }

  /** The vocabulary of a keyword document: every cleaned name once, in ascending order. */
  function Vocabulary(names: seq<Option<string>>): (r: seq<string>)
    ensures StrictlySorted(r)
    ensures forall k :: k in r <==> IsKeyword(names, k)
  {
    PresentMembers(CleanAll(names));
    InsertAll(Present(CleanAll(names)))
  }

  /** The first half of the loading loop: the set of cleaned names. */
  method CollectKeywords(names: seq<Option<string>>) returns (seen: set<string>)
    ensures forall k :: k in seen <==> IsKeyword(names, k)
  {
    seen := {};
    for i := 0 to |names|
      invariant forall k :: k in seen <==> IsKeyword(names[..i], k)
    {
      assert names[..i + 1][..i] == names[..i];
      var raw := names[i];
      if raw.Some? && |raw.value| > 0 {
        var cleaned := Normalise(raw.value);
        if |cleaned| > 0 {
          seen := seen + {cleaned};
        }
      }
    }
    assert names[..|names|] == names;
  }

  /** The second half: the set listed in ascending order. */
  method SortedList(seen: set<string>) returns (list: seq<string>)
    ensures StrictlySorted(list)
    ensures forall k :: k in list <==> k in seen
  {
    list := [];
    var rest := seen;
    while rest != {}
      invariant StrictlySorted(list)
      invariant forall k :: k in seen <==> k in list || k in rest
      decreases rest
    {
      var x :| x in rest;
      list := Insert(x, list);
      rest := rest - {x};
    }
  }

  /** The loading loop: collect cleaned names into a set, then list the set in order. */
  method LoadVocabulary(names: seq<Option<string>>) returns (list: seq<string>)
    ensures StrictlySorted(list)
    ensures forall k :: k in list <==> IsKeyword(names, k)
    ensures list == Vocabulary(names)
  {
    var seen := CollectKeywords(names);
    list := SortedList(seen);
    SortedUnique(list, Vocabulary(names));
  }

  /** A name that is already normal up to white-space padding cleans to itself. */
  lemma CleanedPadded(pre: string, k: string, post: string)
    requires AllSpace(pre) && AllSpace(post)
    requires |k| > 0 && Trimmed(k) && NoDoubledQuote(pre + k + post)
    ensures Cleaned(Some(pre + k + post)) == Some(k)
  {
    CollapseIdentity(pre + k + post);
    TrimPadded(pre, k, post);
  }

  // ---------------------------------------------------------------------------
  // One load and its completion
  // ---------------------------------------------------------------------------

  /** What the fetch produced: an HTTP response whose keyword elements carry the given
      `name` attributes, or a transport failure with its message. */
  datatype Response =
    | Response(ok: bool, status: nat, names: seq<Option<string>>)
    | TransportError(message: string)

  datatype Outcome = Loaded(keywords: seq<string>) | Failed(message: string)

  /** Decimal digits of `n`, as a template literal prints it. */
  function Decimal(n: nat): (s: string)
    ensures |s| > 0
    ensures forall i :: 0 <= i < |s| ==> '0' <= s[i] <= '9'
    decreases n
  {
    var d := [('0' as int + n % 10) as char];
    if n < 10 then d else Decimal(n / 10) + d
  }

  /** The body of the `try`: a non-success status fails with "HTTP <status>". */
  function Load(resp: Response): (o: Outcome)
    ensures o.Loaded? ==> StrictlySorted(o.keywords)
    ensures o.Loaded? <==> resp.Response? && resp.ok
    ensures resp.Response? && !resp.ok ==> o == Failed("HTTP " + Decimal(resp.status))
    ensures resp.Response? && resp.ok ==> o == Loaded(Vocabulary(resp.names))
    ensures resp.TransportError? ==> o == Failed(resp.message)
  {
    match resp
    case TransportError(msg) => Failed(msg)
    case Response(ok, status, names) =>
      if !ok then Failed("HTTP " + Decimal(status)) else Loaded(Vocabulary(names))
  }

  /** Keywords, loading flag and error message as the hook exposes them. */
  datatype LoadState = LoadState(keywords: seq<string>, loading: bool, error: Option<string>)

  const InitialLoad := LoadState([], true, None)

  /** The state updates after the load settles; a cancelled load updates nothing. */
  function Complete(cancelled: bool, outcome: Outcome, st: LoadState): (st': LoadState)
    ensures cancelled ==> st' == st
    ensures !cancelled ==> !st'.loading
    ensures !cancelled && outcome.Loaded? ==> st'.keywords == outcome.keywords && st'.error == None
    ensures !cancelled && outcome.Failed? ==>
              st'.keywords == st.keywords && st'.error == Some(outcome.message)
  {
    if cancelled then st
    else
      match outcome
      case Loaded(list) => LoadState(list, false, None)
      case Failed(msg) => st.(loading := false, error := Some(msg))
  }

  /** The exposed keyword list is always strictly sorted. */
  lemma CompleteKeepsSorted(cancelled: bool, resp: Response, st: LoadState)
    requires StrictlySorted(st.keywords)
    ensures StrictlySorted(Complete(cancelled, Load(resp), st).keywords)
  {
  }

  /** A 404 leaves the vocabulary empty, stops loading and reports "HTTP 404". */
  lemma NotFoundScenario(names: seq<Option<string>>)
    ensures Complete(false, Load(Response(false, 404, names)), InitialLoad)
            == LoadState([], false, Some("HTTP 404"))
  {
    assert Decimal(4) == "4";
    assert Decimal(40) == Decimal(4) + "0" == "40";
    assert Decimal(404) == Decimal(40) + "4" == "404";
    assert "HTTP " + "404" == "HTTP 404";
  }
}
