/** Ranking of the article links found on one page by keyword relevance
    (`_prioritize_by_keyword` in WikiCrawler.py). */
module Prioritizer {
  import opened Wrappers

  /** An anchor found on a page: its visible text and its href attribute. */
  datatype Link = Link(text: string, href: string)

  /** A link's href together with the priority given to it (lower is better). */
  datatype Ranked = Ranked(priority: nat, href: string)

  /** Lower-casing of one character; only the ASCII letters are mapped. */
  function LowerChar(c: char): char {
    if 'A' <= c <= 'Z' then (c as int - 'A' as int + 'a' as int) as char else c
  }

  function Lower(s: string): string {
    seq(|s|, i requires 0 <= i < |s| => LowerChar(s[i]))
  }

  /** `w` stands in `s` from position `i` on. */
  ghost predicate OccursAt(s: string, w: string, i: nat) {
    i + |w| <= |s| && s[i..i + |w|] == w
  }

  /** `w` occurs as a contiguous piece of `s` (Python's `w in s` on strings). */
  ghost predicate Occurs(s: string, w: string) {
    exists i: nat :: OccursAt(s, w, i)
  }

  /** Substring test by scanning the start positions of `s` from the left. */
  predicate Contains(s: string, w: string)
    decreases |s|
  {
    |w| <= |s| && (s[..|w|] == w || (|s| > 0 && Contains(s[1..], w)))
  }

  lemma {:induction false} ContainsIsOccurs(s: string, w: string)
    ensures Contains(s, w) <==> Occurs(s, w)
    decreases |s|
  {
    if |w| <= |s| {
      if s[..|w|] == w {
        assert OccursAt(s, w, 0);
      } else {
        assert |s| > 0;
        ContainsIsOccurs(s[1..], w);
        if Occurs(s, w) {
          var i: nat :| OccursAt(s, w, i);
          assert i != 0;
          assert s[1..][i - 1..i - 1 + |w|] == s[i..i + |w|];
          assert OccursAt(s[1..], w, i - 1);
        }
        if Occurs(s[1..], w) {
          var i: nat :| OccursAt(s[1..], w, i);
          assert s[i + 1..i + 1 + |w|] == s[1..][i..i + |w|];
          assert OccursAt(s, w, i + 1);
        }
      }
    } else {
      forall i: nat ensures !OccursAt(s, w, i) {
      }
    }
  }

  /** A word holding a character that `s` lacks is not contained in `s`. */
  lemma {:induction false} MissingCharNotContained(s: string, w: string, k: nat)
    requires k < |w| && w[k] !in s
    ensures !Contains(s, w)
    decreases |s|
  {
    if |w| <= |s| {
      assert s[..|w|][k] == s[k];
      if |s| > 0 {
        MissingCharNotContained(s[1..], w, k);
      }
    }
  }

  /** The keyword `word` matches `link` when, both lower-cased, it occurs in the
      link's text or in its href. */
  predicate Matches(word: string, link: Link) {
    var w := Lower(word);
    Contains(Lower(link.text), w) || Contains(Lower(link.href), w)
  }

  /** A missing keyword list counts as the empty one. */
  function KeywordList(keywords: Option<seq<string>>): seq<string> {
    keywords.GetOr([])
  }

  function PriorityFrom(link: Link, words: seq<string>, i: nat): (r: nat)
    requires i <= |words|
    ensures i <= r <= |words|
    ensures r < |words| ==> Matches(words[r], link)
    ensures forall j | i <= j < r :: !Matches(words[j], link)
    decreases |words| - i
  {
    if i == |words| then |words|
    else if Matches(words[i], link) then i
    else PriorityFrom(link, words, i + 1)
  }

  /** The index of the first keyword matching `link`, or `|words|` when none does. */
  function Priority(link: Link, words: seq<string>): (r: nat)
    ensures r <= |words|
    ensures r < |words| ==> Matches(words[r], link)
    ensures forall j | 0 <= j < r :: !Matches(words[j], link)
  {
    PriorityFrom(link, words, 0)
  }

  /** One ranked href per link, in the order of the links. */
  function Prioritize(links: seq<Link>, keywords: Option<seq<string>>): (r: seq<Ranked>)
    ensures |r| == |links|
    ensures forall i | 0 <= i < |links| ::
      r[i].href == links[i].href && r[i].priority == Priority(links[i], KeywordList(keywords))
    ensures forall i | 0 <= i < |r| :: r[i].priority <= |KeywordList(keywords)|
    ensures KeywordList(keywords) == [] ==> forall i | 0 <= i < |r| :: r[i].priority == 0
  {
    if links == [] then []
    else [Ranked(Priority(links[0], KeywordList(keywords)), links[0].href)] + Prioritize(links[1..], keywords)
  }

  /** The generator's two nested loops: for each link, scan the lower-cased
      keywords in order and stop at the first one that matches. */
  method PrioritizeByKeyword(links: seq<Link>, keywords: Option<seq<string>>) returns (ranked: seq<Ranked>)
    ensures ranked == Prioritize(links, keywords)
  {
    var words := KeywordList(keywords);
    ranked := [];
    for n := 0 to |links|
      invariant |ranked| == n
      invariant forall i | 0 <= i < n :: ranked[i] == Ranked(Priority(links[i], words), links[i].href)
    {
      var link := links[n];
      var text := Lower(link.text);
      var href := Lower(link.href);
      var priority := |words|;
      for index := 0 to |words|
        invariant forall j | 0 <= j < index :: !Matches(words[j], link)
      {
        var word := Lower(words[index]);
        if Contains(text, word) || Contains(href, word) {
          priority := index;
          break;
        }
      }
      ranked := ranked + [Ranked(priority, link.href)];
    }
  }

  /** The three-link example: "physics" is keyword 0, and the two links that
      match neither keyword get `|keywords|`, which is 2. */
  lemma PriorityExample()
    ensures var r := Prioritize([Link("Chemistry", "/wiki/Chem"), Link("Physics today", "/wiki/Phys"),
                                 Link("Unrelated", "/wiki/X")], Some(["physics", "math"]));
            r[0].priority == 2 && r[1].priority == 0 && r[2].priority == 2
  {
    ChemistryRanksLast();
    PhysicsRanksFirst();
    UnrelatedRanksLast();
  }

  lemma PhysicsRanksFirst()
    ensures Priority(Link("Physics today", "/wiki/Phys"), ["physics", "math"]) == 0
  {
    LowerPhysics();
    LowerPhysicsToday();
    PhysicsInPhysicsToday();
    assert Matches("physics", Link("Physics today", "/wiki/Phys"));
  }

  lemma LowerPhysicsToday()
    ensures Lower("Physics today") == "physics today"
  {
  }

  lemma PhysicsInPhysicsToday()
    ensures Contains("physics today", "physics")
  {
  }

  lemma ChemistryRanksLast()
    ensures Priority(Link("Chemistry", "/wiki/Chem"), ["physics", "math"]) == 2
  {
    LowerChemistry();
    NoKeywordLetter(Link("Chemistry", "/wiki/Chem"), "chemistry", "/wiki/chem", 1);
  }

  lemma UnrelatedRanksLast()
    ensures Priority(Link("Unrelated", "/wiki/X"), ["physics", "math"]) == 2
  {
    LowerUnrelated();
    NoKeywordLetter(Link("Unrelated", "/wiki/X"), "unrelated", "/wiki/x", 3);
  }

  lemma LowerPhysics()
    ensures Lower("physics") == "physics" && Lower("math") == "math"
  {
  }

  lemma LowerChemistry()
    ensures Lower("Chemistry") == "chemistry" && Lower("/wiki/Chem") == "/wiki/chem"
  {
  }

  lemma LowerUnrelated()
    ensures Lower("Unrelated") == "unrelated" && Lower("/wiki/X") == "/wiki/x"
  {
  }

  /** Neither keyword of the example matches a link whose lower-cased text and
      href lack the letter 'p' and the letter at index `k` of "math". */
  lemma NoKeywordLetter(link: Link, text: string, href: string, k: nat)
    requires Lower(link.text) == text && Lower(link.href) == href
    requires k < 4 && 'p' !in text && 'p' !in href && "math"[k] !in text && "math"[k] !in href
    ensures !Matches("physics", link) && !Matches("math", link)
  {
    LowerPhysics();
    MissingCharNotContained(text, "physics", 0);
    MissingCharNotContained(href, "physics", 0);
    MissingCharNotContained(text, "math", k);
    MissingCharNotContained(href, "math", k);
  }
}
