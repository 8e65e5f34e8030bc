/** The two string helpers the page applies when rendering labels: the
    navigation-button capitalisation and the metric-key underscore replacement. */
module Labels {
  import opened Portfolio

  /** Upper-cases an ASCII lower-case letter and leaves every other character alone. */
  function UpperAscii(c: char): (r: char)
    ensures 'a' <= c <= 'z' ==> 'A' <= r <= 'Z' && r as int - 'A' as int == c as int - 'a' as int
    ensures !('a' <= c <= 'z') ==> r == c
  {
    if 'a' <= c <= 'z' then (c as int - 32) as char else c
  }

  /** First character upper-cased, the rest unchanged; the empty string stays
      empty, as `charAt(0)` and `slice(1)` both give "" there. */
  function Capitalize(s: string): (r: string)
    ensures |r| == |s|
    ensures |s| > 0 ==> r[0] == UpperAscii(s[0]) && r[1..] == s[1..]
    ensures |s| > 0 ==> !('a' <= r[0] <= 'z')
  {
    if |s| == 0 then "" else [UpperAscii(s[0])] + s[1..]
  }

  /** Capitalising twice is capitalising once. */
  lemma CapitalizeIdempotent(s: string)
    ensures Capitalize(Capitalize(s)) == Capitalize(s)
  {
  }

  /** The navigation-bar labels of the six section ids. */
  lemma NavLabels()
    ensures Capitalize("about") == "About"
    ensures Capitalize("skills") == "Skills"
    ensures Capitalize("certifications") == "Certifications"
    ensures Capitalize("experience") == "Experience"
    ensures Capitalize("projects") == "Projects"
    ensures Capitalize("contact") == "Contact"
  {
  }

  /** Position of the first occurrence of `c` in `s`, or -1 (`indexOf`). */
  function IndexOf(s: string, c: char): (r: int)
    ensures -1 <= r < |s|
    ensures r == -1 <==> c !in s
    ensures r >= 0 ==> s[r] == c && c !in s[..r]
  {
    if |s| == 0 then -1
    else if s[0] == c then 0
    else
      var k := IndexOf(s[1..], c);
      assert s[1..] == s[..|s|][1..];
      if k == -1 then -1
      else
        assert s[..k + 1] == [s[0]] + s[1..][..k];
        k + 1
  }

  /** `String.prototype.replace` with a one-character string pattern: only the
      first occurrence of `from` is replaced by `to`. */
  function ReplaceFirst(s: string, from: char, to: char): (r: string)
    ensures |r| == |s|
    ensures from !in s ==> r == s
    ensures forall i :: 0 <= i < |s| && i != IndexOf(s, from) ==> r[i] == s[i]
    ensures IndexOf(s, from) >= 0 ==> r[IndexOf(s, from)] == to
  {
    if |s| == 0 then s
    else if s[0] == from then [to] + s[1..]
    else
      var rest := ReplaceFirst(s[1..], from, to);
      var k := IndexOf(s[1..], from);
      assert IndexOf(s, from) == if k == -1 then -1 else k + 1;
      assert forall i :: 1 <= i < |s| ==> ([s[0]] + rest)[i] == rest[i - 1] && s[i] == s[1..][i - 1];
      [s[0]] + rest
  }

  /** `IndexOf` finds `k` exactly when `c` sits at `k` and nowhere before it. */
  lemma IndexOfAt(s: string, c: char, k: int)
    requires 0 <= k < |s| && s[k] == c && c !in s[..k]
    ensures IndexOf(s, c) == k
  {
  }

  /** The replacement is the prefix before the first `from`, then `to`, then
      the untouched rest. */
  lemma ReplaceFirstSplit(s: string, from: char, to: char)
    requires from in s
    ensures var k := IndexOf(s, from);
      ReplaceFirst(s, from, to) == s[..k] + [to] + s[k + 1..]
  {
    var k := IndexOf(s, from);
    var r := ReplaceFirst(s, from, to);
    var t := s[..k] + [to] + s[k + 1..];
    forall i | 0 <= i < |s|
      ensures r[i] == t[i]
    {
      if i < k {
        assert t[i] == s[..k][i];
      } else if i > k {
        assert t[i] == s[k + 1..][i - k - 1];
      }
    }
    assert r == t;
  }

  /** Exactly one `from` becomes a `to` when there is one; nothing changes
      otherwise. */
  lemma {:induction false} ReplaceFirstCounts(s: string, from: char, to: char)
    ensures from in s ==> multiset(ReplaceFirst(s, from, to)) == multiset(s) - multiset{from} + multiset{to}
    ensures from !in s ==> multiset(ReplaceFirst(s, from, to)) == multiset(s)
  {
    if |s| > 0 {
      var t := s[1..];
      assert s == [s[0]] + t;
      assert multiset(s) == multiset{s[0]} + multiset(t);
      if s[0] == from {
        assert ReplaceFirst(s, from, to) == [to] + t;
        assert multiset([to] + t) == multiset{to} + multiset(t);
      } else {
        var r' := ReplaceFirst(t, from, to);
        assert ReplaceFirst(s, from, to) == [s[0]] + r';
        assert multiset([s[0]] + r') == multiset{s[0]} + multiset(r');
        ReplaceFirstCounts(t, from, to);
        assert from in s <==> from in t;
      }
    }
  }

  /** The caption shown under a metric value: its key with the first
      underscore turned into a space. */
  function MetricLabel(key: string): (r: string)
    ensures |r| == |key|
    ensures '_' !in key ==> r == key
    ensures '_' in key ==> r == key[..IndexOf(key, '_')] + " " + key[IndexOf(key, '_') + 1..]
    ensures '_' in key ==> multiset(r)['_'] == multiset(key)['_'] - 1
  {
    ReplaceFirstCounts(key, '_', ' ');
    if '_' in key then
      ReplaceFirstSplit(key, '_', ' ');
      ReplaceFirst(key, '_', ' ')
    else
      ReplaceFirst(key, '_', ' ')
  }

  /** The captions of a project's metrics in display order; none without metrics. */
  function MetricLabels(p: Project): (r: seq<string>)
    ensures p.metrics.None? ==> r == []
    ensures p.metrics.Some? ==> |r| == |p.metrics.value|
    ensures p.metrics.Some? ==> forall i :: 0 <= i < |r| ==> r[i] == ReplaceFirst(p.metrics.value[i].key, '_', ' ')
    ensures p.metrics.Some? ==> forall i :: 0 <= i < |r| ==> |r[i]| == |p.metrics.value[i].key|
  {
    match p.metrics
    case None => []
    case Some(ms) => seq(|ms|, i requires 0 <= i < |ms| => MetricLabel(ms[i].key))
  }

  /** Of a key with two underscores only the first becomes a space. */
  lemma MetricLabelTwoUnderscores()
    ensures MetricLabel("a_b_c") == "a b_c"
  {
    assert "a_b_c"[..1] == "a";
    IndexOfAt("a_b_c", '_', 1);
    ReplaceFirstSplit("a_b_c", '_', ' ');
    assert "a_b_c"[2..] == "b_c";
  }
}
