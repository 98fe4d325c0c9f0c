/** The shape of `toFormattedAmount` on a string of digits: a leading
    group of one to three digits, then groups of exactly three, joined by
    '.'. `Chunks` is that grouping defined directly, independently of the
    regular expression, and `Split` reads the groups back out of a
    formatted string. */
module DigitGroups {
  import opened Chars
  import opened Grouping

  /** Length of the leading group of an `n`-digit string. */
  function LeadLength(n: nat): (r: nat)
    requires n > 0
    ensures 1 <= r <= 3 && r <= n
    ensures (n - r) % 3 == 0
  {
    (n - 1) % 3 + 1
  }

  /** `.abc.def…`: a '.' in front of each group of three. */
  function DotTriples(t: string): string
    requires |t| % 3 == 0
    decreases |t|
  {
    if |t| == 0 then "" else "." + t[..3] + DotTriples(t[3..])
  }

  /** `t` cut into consecutive groups of three. */
  function Triples(t: string): seq<string>
    requires |t| % 3 == 0
    decreases |t|
  {
    if |t| == 0 then [] else [t[..3]] + Triples(t[3..])
  }

  /** Reference thousands grouping of a digit string, read from the left. */
  function Chunks(s: string): seq<string> {
    if |s| == 0 then [""]
    else
      var r := LeadLength(|s|);
      [s[..r]] + Triples(s[r..])
  }

  function Concat(parts: seq<string>): string
    decreases |parts|
  {
    if |parts| == 0 then "" else parts[0] + Concat(parts[1..])
  }

  /** The pieces of `t` between dots, as `t.split('.')` would give them. */
  function Split(t: string): (parts: seq<string>)
    ensures |parts| > 0
    decreases |t|
  {
    if |t| == 0 then [""]
    else
      var rest := Split(t[1..]);
      if t[0] == '.' then [""] + rest else [[t[0]] + rest[0]] + rest[1..]
  }

  /** From a position whose remaining length is a multiple of three, the
      replace writes one '.' and three digits per group. */
  lemma {:induction false} ReplaceTriples(s: string, i: nat)
    requires AllDigits(s) && 0 < i <= |s| && (|s| - i) % 3 == 0
    ensures ReplaceFrom(s, i) == DotTriples(s[i..])
    decreases |s| - i
  {
    if i < |s| {
      ReplaceOneTriple(s, i);
      ReplaceTriples(s, i + 3);
      assert s[i..][..3] == s[i..i + 3];
      assert s[i..][3..] == s[i + 3..];
    } else {
      DigitMatchAt(s, |s|);
    }
  }

  /** One group of three digits: a '.' in front of its first digit and
      none in front of the other two. */
  lemma ReplaceOneTriple(s: string, i: nat)
    requires AllDigits(s) && 0 < i && i + 3 <= |s| && (|s| - i) % 3 == 0
    ensures ReplaceFrom(s, i) == "." + s[i..i + 3] + ReplaceFrom(s, i + 3)
  {
    DigitMatchAt(s, i);
    DigitMatchAt(s, i + 1);
    DigitMatchAt(s, i + 2);
    ReplaceStep(s, i + 2);
    ReplaceStep(s, i + 1);
    ReplaceStep(s, i);
    assert s[i..i + 3] == [s[i]] + [s[i + 1]] + [s[i + 2]];
  }


  /** Inside the leading group no '.' is inserted. */
  lemma {:induction false} ReplaceLead(s: string, j: nat)
    requires AllDigits(s) && |s| > 0 && j <= LeadLength(|s|)
    ensures ReplaceFrom(s, j) == s[j..LeadLength(|s|)] + ReplaceFrom(s, LeadLength(|s|))
    decreases LeadLength(|s|) - j
  {
    var r := LeadLength(|s|);
    if j < r {
      DigitMatchAt(s, j);
      ReplaceLead(s, j + 1);
      assert s[j..r] == [s[j]] + s[j + 1..r];
    }
  }

  /** `toFormattedAmount` of a nonempty digit string: the leading group,
      then '.' and three digits per later group. */
  lemma GroupDigits(s: string)
    requires AllDigits(s) && |s| > 0
    ensures Group(s) == s[..LeadLength(|s|)] + DotTriples(s[LeadLength(|s|)..])
  {
    var r := LeadLength(|s|);
    ReplaceLead(s, 0);
    ReplaceTriples(s, r);
    assert s[0..r] == s[..r];
  }

  lemma {:induction false} DotTriplesLength(t: string)
    requires |t| % 3 == 0
    ensures |DotTriples(t)| == |t| + |t| / 3
    decreases |t|
  {
    if |t| > 0 {
      DotTriplesLength(t[3..]);
    }
  }

  /** The output of an `n`-digit string has `n + (n - 1) / 3` characters. */
  lemma GroupLength(s: string)
    requires AllDigits(s) && |s| > 0
    ensures |Group(s)| == |s| + (|s| - 1) / 3
  {
    var n, r := |s|, LeadLength(|s|);
    GroupDigits(s);
    DotTriplesLength(s[r..]);
    assert n - r == 3 * ((n - 1) / 3);
  }

  lemma {:induction false} SplitNoDots(g: string)
    requires NoDots(g)
    ensures Split(g) == [g]
    decreases |g|
  {
    if |g| > 0 {
      SplitNoDots(g[1..]);
      assert g == [g[0]] + g[1..];
    }
  }

  lemma {:induction false} SplitAfterPiece(g: string, u: string)
    requires NoDots(g)
    ensures Split(g + "." + u) == [g] + Split(u)
    decreases |g|
  {
    var t := g + "." + u;
    if |g| == 0 {
      assert t[1..] == u;
    } else {
      assert t[1..] == g[1..] + "." + u;
      SplitAfterPiece(g[1..], u);
      assert g == [g[0]] + g[1..];
    }
  }

  lemma {:induction false} SplitDotTriples(g: string, t: string)
    requires NoDots(g) && AllDigits(t) && |t| % 3 == 0
    ensures Split(g + DotTriples(t)) == [g] + Triples(t)
    decreases |t|
  {
    if |t| == 0 {
      SplitNoDots(g);
      assert g + DotTriples(t) == g;
    } else {
      var h := t[..3];
      assert g + DotTriples(t) == g + "." + (h + DotTriples(t[3..]));
      SplitAfterPiece(g, h + DotTriples(t[3..]));
      SplitDotTriples(h, t[3..]);
    }
  }

  /** The groups read back from the formatted digit string are exactly
      the reference grouping. */
  lemma SplitGroup(s: string)
    requires AllDigits(s) && |s| > 0
    ensures Split(Group(s)) == Chunks(s)
  {
    var r := LeadLength(|s|);
    GroupDigits(s);
    SplitDotTriples(s[..r], s[r..]);
  }

  lemma {:induction false} TriplesShape(t: string)
    requires AllDigits(t) && |t| % 3 == 0
    ensures |Triples(t)| == |t| / 3
    ensures forall k :: 0 <= k < |Triples(t)| ==> |Triples(t)[k]| == 3 && AllDigits(Triples(t)[k])
    ensures Concat(Triples(t)) == t
    decreases |t|
  {
    if |t| > 0 {
      TriplesShape(t[3..]);
      assert Triples(t)[1..] == Triples(t[3..]);
      assert t == t[..3] + t[3..];
    }
  }

  /** The reference grouping has a leading group of one to three digits,
      groups of exactly three after it, and puts the digits back together
      unchanged. */
  lemma ChunksShape(s: string)
    requires AllDigits(s) && |s| > 0
    ensures |Chunks(s)| == (|s| - 1) / 3 + 1
    ensures 1 <= |Chunks(s)[0]| <= 3
    ensures forall k :: 0 < k < |Chunks(s)| ==> |Chunks(s)[k]| == 3
    ensures forall k :: 0 <= k < |Chunks(s)| ==> AllDigits(Chunks(s)[k])
    ensures Concat(Chunks(s)) == s
  {
    var r := LeadLength(|s|);
    TriplesShape(s[r..]);
    assert Chunks(s)[1..] == Triples(s[r..]);
    assert |s| - r == 3 * ((|s| - 1) / 3);
    assert s == s[..r] + s[r..];
  }

  /** In the grouped output of a digit string, the first group has one to
      three digits and every later group exactly three, and the groups
      spell the input. */
  lemma GroupShape(s: string)
    requires AllDigits(s) && |s| > 0
    ensures |Split(Group(s))| == (|s| - 1) / 3 + 1
    ensures 1 <= |Split(Group(s))[0]| <= 3
    ensures forall k :: 0 < k < |Split(Group(s))| ==> |Split(Group(s))[k]| == 3
    ensures forall k :: 0 <= k < |Split(Group(s))| ==> AllDigits(Split(Group(s))[k])
    ensures Concat(Split(Group(s))) == s
  {
    SplitGroup(s);
    ChunksShape(s);
  }
}
