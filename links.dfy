/**
 * The one regular expression of the parser, `\[([^\]]+)\]\(([^)]+)\)`, as
 * `re.search` runs it: the leftmost position at which it matches wins.
 */
module Links {
  import opened Wrappers
  import opened Text

  /** The two groups of a match: the link text and the link target. */
  datatype Link = Link(text: string, target: string)

  /**
   * Reference reading of the pattern: at position `p` of `line` stand `[`, the
   * text, `](`, the target and `)`, where the text is non-empty and free of `]`
   * and the target is non-empty and free of `)`.
   */
  ghost predicate IsLinkAt(line: string, p: nat, k: Link) {
    var q := p + 1 + |k.text|;
    var r := q + 2 + |k.target|;
    r < |line|
    && line[p] == '[' && line[p + 1..q] == k.text && line[q] == ']'
    && line[q + 1] == '(' && line[q + 2..r] == k.target && line[r] == ')'
    && k.text != "" && ']' !in k.text
    && k.target != "" && ')' !in k.target
  }

  /**
   * The attempt at one start position.  A character class with `+` can only
   * stop at the first character it excludes, so each group runs up to the
   * first `]` (resp. `)`) and backtracking never finds another split.
   */
  function MatchAt(line: string, p: nat): (r: Option<Link>)
    ensures r.Some? ==> r.value.text != "" && ']' !in r.value.text
    ensures r.Some? ==> r.value.target != "" && ')' !in r.value.target
  {
    if p < |line| && line[p] == '[' then
      var q := IndexOf(line, ']', p + 1);
      if p + 1 < q && q + 1 < |line| && line[q + 1] == '(' then
        var r := IndexOf(line, ')', q + 2);
        if q + 2 < r < |line| then Some(Link(line[p + 1..q], line[q + 2..r])) else None
      else None
    else None
  }

  /** `MatchAt` agrees with the reference reading in both directions. */
  lemma MatchAtIff(line: string, p: nat, k: Link)
    ensures MatchAt(line, p) == Some(k) <==> IsLinkAt(line, p, k)
  {
    if MatchAt(line, p) == Some(k) {
      MatchAtSound(line, p, k);
    }
    if IsLinkAt(line, p, k) {
      MatchAtComplete(line, p, k);
    }
  }

  lemma MatchAtSound(line: string, p: nat, k: Link)
    requires MatchAt(line, p) == Some(k)
    ensures IsLinkAt(line, p, k)
  {
    var q := IndexOf(line, ']', p + 1);
    assert q == p + 1 + |k.text|;
  }

  lemma MatchAtComplete(line: string, p: nat, k: Link)
    requires IsLinkAt(line, p, k)
    ensures MatchAt(line, p) == Some(k)
  {
    var q := p + 1 + |k.text|;
    var r := q + 2 + |k.target|;
    assert forall j :: p + 1 <= j < q ==> line[j] == k.text[j - p - 1];
    assert forall j :: q + 2 <= j < r ==> line[j] == k.target[j - q - 2];
    assert IndexOf(line, ']', p + 1) == q;
    assert IndexOf(line, ')', q + 2) == r;
  }

  /** The scan from position `p` onwards. */
  function FindLinkFrom(line: string, p: nat): (r: Option<Link>)
    ensures r.Some? ==> r.value.text != "" && ']' !in r.value.text
    ensures r.Some? ==> r.value.target != "" && ')' !in r.value.target
    decreases |line| - p
  {
    if p >= |line| then None
    else if MatchAt(line, p).Some? then MatchAt(line, p)
    else FindLinkFrom(line, p + 1)
  }

  /** `re.search(pattern, line)`, reduced to its two groups. */
  function FindLink(line: string): (r: Option<Link>)
    ensures r.Some? ==> r.value.text != "" && ']' !in r.value.text
    ensures r.Some? ==> r.value.target != "" && ')' !in r.value.target
  {
    FindLinkFrom(line, 0)
  }

  lemma {:induction false} FindLinkFromSpec(line: string, p: nat)
    ensures FindLinkFrom(line, p).Some? ==>
      exists q :: p <= q < |line| && MatchAt(line, q) == FindLinkFrom(line, p)
                  && forall q' :: p <= q' < q ==> MatchAt(line, q').None?
    ensures FindLinkFrom(line, p).None? ==> forall q :: p <= q ==> MatchAt(line, q).None?
    decreases |line| - p
  {
    if p >= |line| {
      forall q | p <= q ensures MatchAt(line, q).None? {
      }
    } else if MatchAt(line, p).Some? {
      assert MatchAt(line, p) == FindLinkFrom(line, p);
    } else {
      FindLinkFromSpec(line, p + 1);
      assert FindLinkFrom(line, p) == FindLinkFrom(line, p + 1);
      if FindLinkFrom(line, p + 1).Some? {
        var q :| p + 1 <= q < |line| && MatchAt(line, q) == FindLinkFrom(line, p + 1)
                 && forall q' :: p + 1 <= q' < q ==> MatchAt(line, q').None?;
        assert forall q' :: p <= q' < q ==> MatchAt(line, q').None?;
      } else {
        assert forall q :: p <= q ==> MatchAt(line, q).None?;
      }
    }
  }

  /**
   * What `FindLink` returns: the groups of a match at some position `p`, with
   * no match at any earlier position; or nothing, when the pattern occurs
   * nowhere in the line.
   */
  lemma FindLinkLeftmost(line: string)
    ensures FindLink(line).Some? ==>
      exists p :: 0 <= p < |line| && IsLinkAt(line, p, FindLink(line).value)
                  && forall p', k :: 0 <= p' < p ==> !IsLinkAt(line, p', k)
    ensures FindLink(line).None? ==> forall p, k :: !IsLinkAt(line, p, k)
  {
    FindLinkFromSpec(line, 0);
    if FindLinkFrom(line, 0).Some? {
      var p :| 0 <= p < |line| && MatchAt(line, p) == FindLinkFrom(line, 0)
               && forall q' :: 0 <= q' < p ==> MatchAt(line, q').None?;
      MatchAtIff(line, p, FindLinkFrom(line, 0).value);
      forall p', k | 0 <= p' < p ensures !IsLinkAt(line, p', k) {
        MatchAtIff(line, p', k);
      }
    } else {
      forall p, k ensures !IsLinkAt(line, p, k) {
        MatchAtIff(line, p, k);
      }
    }
  }
}
