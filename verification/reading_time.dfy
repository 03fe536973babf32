/** The estimated reading time shown with a blog post: the number of
    space-separated fields at 200 words a minute, rounded up. */
module ReadingTime {
  import Strings

  const WordsPerMinute := 200
  const Suffix := " min read"

  /** `content.split(' ').length`: one more than the number of spaces, so
      empty content still counts one word. */
  function WordCount(content: string): (n: nat)
    ensures n == multiset(content)[' '] + 1
    ensures n >= 1
  {
    Strings.SplitCount(content, ' ');
    |Strings.Split(content, ' ')|
  }

  /** `Math.ceil(words / 200)`: the fewest whole minutes that cover `words`. */
  function Minutes(words: nat): (m: nat)
    ensures m * WordsPerMinute >= words
    ensures m == 0 || (m - 1) * WordsPerMinute < words
  {
    (words + WordsPerMinute - 1) / WordsPerMinute
  }

  /** `calculateReadingTime(content)`: the minutes in decimal followed by
      " min read". */
  function ReadingTime(content: string): (r: string)
    ensures |r| > |Suffix| && r[|r| - |Suffix|..] == Suffix
    ensures forall i :: 0 <= i < |r| - |Suffix| ==> Strings.IsDigit(r[i])
    ensures r[0] != '0'
    ensures Strings.DecimalValue(r[..|r| - |Suffix|]) == Minutes(WordCount(content))
  {
    var digits := Strings.NatToDecimal(Minutes(WordCount(content)));
    Strings.DecimalRoundTrip(Minutes(WordCount(content)));
    var r := digits + Suffix;
    assert r[..|r| - |Suffix|] == digits;
    r
  }

  /** Every post reads for at least a minute. */
  lemma AtLeastOneMinute(content: string)
    ensures Minutes(WordCount(content)) >= 1
  {
  }

  /** More words never take less time. */
  lemma MinutesMonotone(a: nat, b: nat)
    requires a <= b
    ensures Minutes(a) <= Minutes(b)
  {
  }

  /** The rounding boundary: 200 words is one minute, 201 is two. */
  lemma MinuteBoundary()
    ensures Minutes(200) == 1 && Minutes(201) == 2
  {
  }

  /** Appending to a post never shortens its reading time. */
  lemma LongerContentReadsLonger(content: string, more: string)
    ensures Minutes(WordCount(content)) <= Minutes(WordCount(content + more))
  {
    assert multiset(content + more) == multiset(content) + multiset(more);
    MinutesMonotone(WordCount(content), WordCount(content + more));
  }
}
