/**
 * The client's number display: `DisplayHandler.insertCommas`.
 *
 * The routine splits its argument into groups of three characters counted
 * from the right, separated by commas, and then post-processes the grouped
 * text by its length: long text is abbreviated to a coloured "millions" form,
 * medium text has its last separator rewritten.
 *
 * The model keeps the two stages apart:
 *  - `Grouped` is the specification of the comma-inserting loop,
 *    `GroupedCharAt` an independent, index-by-index description of the same
 *    layout, and `Ungroup` its inverse;
 *  - `Finish` is the length-based post-processing as written;
 *  - `InsertCommas` is the routine itself, a loop over the text proved
 *    against `Formatted`, the composition of the two stages.
 */
module DisplayHandler {

  /** Colour tag that prefixes the abbreviated form; the renderer consumes it. */
  const GreenTag: string := "@gre@"

  // ---------------------------------------------------------------------
  // Stage 1: grouping
  // ---------------------------------------------------------------------

  /**
   * The input split into groups of three from the right, joined by commas.
   * Grouping only adds characters.
   */
  function Grouped(s: string): (r: string)
    ensures |s| <= |r|
    decreases |s|
  {
    if |s| <= 3 then s
    else Grouped(s[..|s| - 3]) + "," + s[|s| - 3..]
  }

  /** Number of commas the loop inserts into a text of length `n`. */
  function CommaCount(n: nat): nat
  {
    if n == 0 then 0 else (n - 1) / 3
  }

  /** Length of the leading group of a text of length `n`. */
  function Lead(n: nat): nat
  {
    if n == 0 then 0 else (n - 1) % 3 + 1
  }

  /**
   * The grouped layout described position by position, without recursion:
   * the leading group first, then blocks of four, each a comma followed by
   * three original characters.
   */
  function GroupedCharAt(s: string, i: nat): char
    requires i < |s| + CommaCount(|s|)
  {
    var lead := Lead(|s|);
    if i < lead then s[i]
    else if (i - lead) % 4 == 0 then ','
    else s[lead + 3 * ((i - lead) / 4) + (i - lead) % 4 - 1]
  }

  /**
   * Undoes the grouping by position: drops the character four from the end,
   * block by block. Commas that were part of the input itself survive.
   */
  function Ungroup(g: string): string
    decreases |g|
  {
    if |g| <= 3 then g
    else Ungroup(g[..|g| - 4]) + g[|g| - 3..]
  }

  /** `s` with every occurrence of `c` removed. */
  function Without(s: string, c: char): (r: string)
    ensures c !in r
    ensures |r| <= |s|
  {
    if s == [] then []
    else (if s[0] == c then [] else [s[0]]) + Without(s[1..], c)
  }

  lemma LeadAndCount(n: nat)
    requires n > 3
    ensures Lead(n) == Lead(n - 3)
    ensures CommaCount(n) == CommaCount(n - 3) + 1
  {
  }

  /** A text splits into its leading group and its full groups of three. */
  lemma LeadSplit(n: nat)
    ensures n == Lead(n) + 3 * CommaCount(n)
    ensures n > 0 ==> 1 <= Lead(n) <= 3
  {
  }

  /**
   * The loop inserts exactly `(n-1)/3` commas into a text of length n >= 1,
   * none into the empty text.
   */
  lemma {:induction false} GroupedLength(s: string)
    ensures |Grouped(s)| == |s| + CommaCount(|s|)
    decreases |s|
  {
    if |s| > 3 {
      GroupedLength(s[..|s| - 3]);
      LeadAndCount(|s|);
    }
  }

  /** Within `GroupedCharAt`, a prefix of `s` reads the same as `s` itself. */
  lemma CharAtPrefix(s: string, i: nat)
    requires |s| > 3
    requires i < |s| - 3 + CommaCount(|s| - 3)
    ensures i < |s| + CommaCount(|s|)
    ensures GroupedCharAt(s[..|s| - 3], i) == GroupedCharAt(s, i)
  {
    LeadAndCount(|s|);
  }

  /** The `k`-th block of four in closed form: a comma, then three originals. */
  lemma CharAtBlock(s: string, k: nat, t: nat)
    requires k < CommaCount(|s|) && t < 4
    ensures Lead(|s|) + 4 * k + t < |s| + CommaCount(|s|)
    ensures Lead(|s|) + 3 * k + 2 < |s|
    ensures GroupedCharAt(s, Lead(|s|) + 4 * k + t)
            == if t == 0 then ',' else s[Lead(|s|) + 3 * k + t - 1]
  {
    LeadSplit(|s|);
    var lead := Lead(|s|);
    var i := lead + 4 * k + t;
    assert (i - lead) / 4 == k && (i - lead) % 4 == t;
  }

  /**
   * Independent reference: the recursive grouping produces exactly the
   * position-by-position layout, with length n + (n-1)/3.
   */
  lemma {:induction false} GroupedLayout(s: string)
    ensures |Grouped(s)| == |s| + CommaCount(|s|)
    ensures forall i :: 0 <= i < |Grouped(s)| ==> Grouped(s)[i] == GroupedCharAt(s, i)
    decreases |s|
  {
    LeadSplit(|s|);
    GroupedLength(s);
    if |s| > 3 {
      var p := s[..|s| - 3];
      GroupedLayout(p);
      LeadSplit(|p|);
      GroupedLength(p);
      LeadAndCount(|s|);
      var g, gp := Grouped(s), Grouped(p);
      assert g == gp + "," + s[|s| - 3..];
      forall i | 0 <= i < |g|
        ensures g[i] == GroupedCharAt(s, i)
      {
        if i < |gp| {
          CharAtPrefix(s, i);
        } else {
          CharAtBlock(s, CommaCount(|p|), i - |gp|);
        }
      }
    }
  }

  /**
   * The `k`-th inserted comma sits at `Lead + 4k` of the grouped text and is
   * followed by exactly the three original characters from `Lead + 3k`.
   */
  lemma CommaPositions(s: string, k: nat)
    requires k < CommaCount(|s|)
    ensures Lead(|s|) + 4 * k + 4 <= |Grouped(s)|
    ensures Grouped(s)[Lead(|s|) + 4 * k] == ','
    ensures Grouped(s)[Lead(|s|) + 4 * k + 1] == s[Lead(|s|) + 3 * k]
    ensures Grouped(s)[Lead(|s|) + 4 * k + 2] == s[Lead(|s|) + 3 * k + 1]
    ensures Grouped(s)[Lead(|s|) + 4 * k + 3] == s[Lead(|s|) + 3 * k + 2]
  {
    BlockAt(s, k, 0);
    BlockAt(s, k, 1);
    BlockAt(s, k, 2);
    BlockAt(s, k, 3);
  }

  lemma BlockAt(s: string, k: nat, t: nat)
    requires k < CommaCount(|s|) && t < 4
    ensures Lead(|s|) + 4 * k + t < |Grouped(s)|
    ensures Lead(|s|) + 3 * k + 2 < |s|
    ensures Grouped(s)[Lead(|s|) + 4 * k + t]
            == if t == 0 then ',' else s[Lead(|s|) + 3 * k + t - 1]
  {
    GroupedLayout(s);
    CharAtBlock(s, k, t);
  }

  /** The leading group is the first one to three original characters. */
  lemma LeadingGroup(s: string)
    requires |s| > 0
    ensures 1 <= Lead(|s|) <= 3
    ensures Grouped(s)[..Lead(|s|)] == s[..Lead(|s|)]
  {
    GroupedLayout(s);
    LeadSplit(|s|);
    var lead, g := Lead(|s|), Grouped(s);
    forall i | 0 <= i < lead
      ensures g[i] == s[i]
    {
      assert g[i] == GroupedCharAt(s, i);
    }
  }

  /** Dropping the inserted commas by position gives back the input exactly. */
  lemma {:induction false} UngroupGrouped(s: string)
    ensures Ungroup(Grouped(s)) == s
    decreases |s|
  {
    if |s| > 3 {
      var p := s[..|s| - 3];
      var g, gp := Grouped(s), Grouped(p);
      LeadSplit(|p|);
      assert g[..|g| - 4] == gp;
      assert g[|g| - 3..] == s[|s| - 3..];
      UngroupGrouped(p);
      assert p + s[|s| - 3..] == s;
    }
  }

  /** Grouping never merges two different inputs. */
  lemma GroupedInjective(s: string, t: string)
    requires Grouped(s) == Grouped(t)
    ensures s == t
  {
    UngroupGrouped(s);
    UngroupGrouped(t);
  }

  lemma {:induction false} WithoutAppend(a: string, b: string, c: char)
    ensures Without(a + b, c) == Without(a, c) + Without(b, c)
    decreases |a|
  {
    if a != [] {
      var h := if a[0] == c then [] else [a[0]];
      assert (a + b)[0] == a[0];
      assert (a + b)[1..] == a[1..] + b;
      WithoutAppend(a[1..], b, c);
      calc {
        Without(a + b, c);
        h + Without(a[1..] + b, c);
        h + (Without(a[1..], c) + Without(b, c));
        (h + Without(a[1..], c)) + Without(b, c);
        Without(a, c) + Without(b, c);
      }
    } else {
      assert a + b == b;
    }
  }

  lemma WithoutAbsent(s: string, c: char)
    requires c !in s
    ensures Without(s, c) == s
  {
    if s != [] {
      assert c !in s[1..];
      WithoutAbsent(s[1..], c);
    }
  }

  /** For a text without commas, deleting every comma undoes the grouping. */
  lemma {:induction false} WithoutCommasGrouped(s: string)
    requires ',' !in s
    ensures Without(Grouped(s), ',') == s
    decreases |s|
  {
    if |s| <= 3 {
      WithoutAbsent(s, ',');
    } else {
      var p, q := s[..|s| - 3], s[|s| - 3..];
      assert s == p + q;
      assert ',' !in p && ',' !in q;
      var gp := Grouped(p);
      calc {
        Without(Grouped(s), ',');
        Without((gp + ",") + q, ',');
        { WithoutAppend(gp + ",", q, ','); }
        Without(gp + ",", ',') + Without(q, ',');
        { WithoutAppend(gp, ",", ','); }
        Without(gp, ',') + Without(",", ',') + Without(q, ',');
        { WithoutCommasGrouped(p); WithoutAbsent(q, ','); }
        p + Without(",", ',') + q;
        { assert Without(",", ',') == []; }
        p + q;
      }
    }
  }

  // ---------------------------------------------------------------------
  // Stage 2: length-based post-processing
  // ---------------------------------------------------------------------

  /**
   * The branches after the loop, applied to the grouped text `g`. Past 8
   * characters the text is abbreviated; between 5 and 8 the character at
   * `len-4` is overwritten with a comma; shorter text is left alone. Every
   * slice is in range for every `g`.
   */
  function Finish(g: string): (r: string)
    ensures |g| > 8 ==>
              |r| == |g| + 1 && r[..5] == GreenTag && r[5..|r| - 1] == g[..|g| - 5] && r[|r| - 1] == 'm'
    ensures 4 < |g| <= 8 ==>
              |r| == |g| && r[|g| - 4] == ','
              && forall i :: 0 <= i < |g| && i != |g| - 4 ==> r[i] == g[i]
    ensures |g| <= 4 ==> r == g
  {
    if |g| > 8 then GreenTag + g[..|g| - 5] + "m"
    else if |g| > 4 then g[..|g| - 4] + "," + g[|g| - 3..|g|]
    else g
  }

  /** What `insertCommas` returns for `s`. */
  function Formatted(s: string): string
  {
    Finish(Grouped(s))
  }

  /** Which post-processing branch applies depends only on the input length. */
  lemma BranchByInputLength(s: string)
    ensures |Grouped(s)| > 8 <==> |s| >= 7
    ensures |Grouped(s)| > 4 <==> |s| >= 4
  {
    LeadSplit(|s|);
    GroupedLength(s);
  }

  /**
   * On grouped text of length 5 to 8 the rewrite at `len-4` changes nothing:
   * that character already is the last inserted comma.
   */
  lemma RebuildIsIdentity(s: string)
    requires 4 < |Grouped(s)| <= 8
    ensures Grouped(s)[|Grouped(s)| - 4] == ','
    ensures Finish(Grouped(s)) == Grouped(s)
  {
    LeadSplit(|s|);
    GroupedLength(s);
    var g := Grouped(s);
    assert |s| > 3;
    assert g[|g| - 4] == ',';
  }

  /** Inputs of at most three characters come back unchanged. */
  lemma ShortUnchanged(s: string)
    requires |s| <= 3
    ensures Formatted(s) == s
  {
  }

  /** Inputs of four to six characters get plain comma grouping. */
  lemma MediumIsGrouped(s: string)
    requires 4 <= |s| <= 6
    ensures Formatted(s) == Grouped(s)
    ensures |Formatted(s)| == |s| + 1
    ensures Formatted(s) == s[..|s| - 3] + "," + s[|s| - 3..]
  {
    LeadSplit(|s|);
    GroupedLength(s);
    RebuildIsIdentity(s);
  }

  /**
   * Inputs of seven or more characters are abbreviated: the colour tag, the
   * grouped text without its last five characters, and "m"; one character
   * longer than the grouped text. What is kept is the grouped millions part,
   * a comma and the first two characters of the thousands group.
   */
  lemma {:induction false} LongIsAbbreviated(s: string)
    requires |s| >= 7
    ensures Formatted(s) == GreenTag + Grouped(s)[..|Grouped(s)| - 5] + "m"
    ensures |Formatted(s)| == |Grouped(s)| + 1
    ensures Formatted(s) == GreenTag + Grouped(s[..|s| - 6]) + "," + s[|s| - 6..|s| - 4] + "m"
  {
    var n := |s|;
    var p, pp := s[..n - 3], s[..n - 6];
    LeadSplit(|s|);
    GroupedLength(s);
    LeadSplit(|p|);
    GroupedLength(p);
    LeadSplit(|pp|);
    GroupedLength(pp);
    assert p[..|p| - 3] == pp;
    assert Grouped(p) == Grouped(pp) + "," + p[|p| - 3..];
    var g := Grouped(s);
    assert g == Grouped(pp) + "," + p[|p| - 3..] + "," + s[n - 3..];
    assert g[..|g| - 5] == Grouped(pp) + "," + s[n - 6..n - 4];
  }

  /** One pass of the loop: grouping a prefix peels off its last block. */
  lemma GroupedStep(str: string, j: int)
    requires 0 < j && j + 3 <= |str|
    ensures Grouped(str[..j + 3]) == Grouped(str[..j]) + "," + str[j..j + 3]
  {
    var p := str[..j + 3];
    assert p[..|p| - 3] == str[..j];
    assert p[|p| - 3..] == str[j..j + 3];
  }

  // ---------------------------------------------------------------------
  // The routine
  // ---------------------------------------------------------------------

  /**
   * `insertCommas`: the loop walks `j` from `len-3` down by three while
   * `j > 0`, inserting a comma at `j`; every insertion lands left of the
   * earlier ones, so `j` always indexes the original text. The grouped text
   * is then post-processed by its length.
   */
  method InsertCommas(str: string) returns (s: string)
    ensures s == Formatted(str)
    ensures |str| <= 3 ==> s == str
    ensures 4 <= |str| <= 6 ==> s == Grouped(str) && |s| == |str| + 1
    ensures |str| >= 7 ==> s == GreenTag + Grouped(str)[..|Grouped(str)| - 5] + "m"
  {
    s := str;
    var j := |s| - 3;
    ghost var done: string := [];
    assert str[..j + 3] == str;
    while j > 0
      invariant -3 <= j <= |str| - 3
      invariant s == str[..j + 3] + done
      invariant Grouped(str) == Grouped(str[..j + 3]) + done
      decreases j
    {
      GroupedStep(str, j);
      assert str[..j + 3] == str[..j] + str[j..j + 3];
      s := s[..j] + "," + s[j..];
      done := "," + str[j..j + 3] + done;
      assert s == str[..j] + done;
      j := j - 3;
    }
    if |s| > 8 {
      s := GreenTag + s[..|s| - 5] + "m";
    } else if |s| > 4 {
      s := s[..|s| - 4] + "," + s[|s| - 3..|s|];
    }
    if 4 <= |str| <= 6 {
      MediumIsGrouped(str);
    } else if |str| >= 7 {
      LongIsAbbreviated(str);
    }
  }
}
