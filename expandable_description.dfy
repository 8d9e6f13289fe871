/** The collapsed/expanded description (src/components/ExpandableDescription.tsx):
    the text is split on single spaces, and with more than 30 words the
    collapsed view shows the first 30 followed by "...". */
module ExpandableDescription {
  import opened Wrappers

  const MaxWords: nat := 30

  /** `text.split(' ')`: the pieces between single spaces, empty pieces
      included; there is always at least one piece. */
  function Split(s: string): (r: seq<string>)
    ensures |r| >= 1
    ensures forall w :: w in r ==> ' ' !in w
    decreases |s|
  {
    if |s| == 0 then [""]
    else if s[0] == ' ' then [""] + Split(s[1..])
    else
      var rest := Split(s[1..]);
      [[s[0]] + rest[0]] + rest[1..]
  }

  /** `words.join(' ')` */
  function Join(words: seq<string>): string
  {
    if |words| == 0 then ""
    else if |words| == 1 then words[0]
    else words[0] + " " + Join(words[1..])
  }

  lemma JoinCons(w: string, rest: seq<string>)
    requires |rest| >= 1
    ensures Join([w] + rest) == w + " " + Join(rest)
  {
    assert ([w] + rest)[1..] == rest;
  }

  /** Joining the pieces gives the text back. */
  lemma {:induction false} JoinSplit(s: string)
    ensures Join(Split(s)) == s
    decreases |s|
  {
    if |s| == 0 {
    } else if s[0] == ' ' {
      JoinSplit(s[1..]);
      JoinCons("", Split(s[1..]));
      assert s == [' '] + s[1..];
    } else {
      var rest := Split(s[1..]);
      JoinSplit(s[1..]);
      var first := [s[0]] + rest[0];
      if |rest| == 1 {
        assert Split(s) == [first];
      } else {
        assert Split(s) == [first] + rest[1..];
        JoinCons(first, rest[1..]);
        assert rest == [rest[0]] + rest[1..];
        JoinCons(rest[0], rest[1..]);
      }
      assert s == [s[0]] + s[1..];
    }
  }

  lemma {:induction false} SplitWord(w: string)
    requires ' ' !in w
    ensures Split(w) == [w]
    decreases |w|
  {
    if |w| > 0 {
      SplitWord(w[1..]);
      assert w == [w[0]] + w[1..];
    }
  }

  lemma {:induction false} SplitSpaced(w: string, t: string)
    requires ' ' !in w
    ensures Split(w + " " + t) == [w] + Split(t)
    decreases |w|
  {
    var s := w + " " + t;
    if |w| == 0 {
      assert s[1..] == t;
    } else {
      assert s[1..] == w[1..] + " " + t;
      SplitSpaced(w[1..], t);
      assert w == [w[0]] + w[1..];
    }
  }

  /** Splitting a join of space-free words gives the words back. */
  lemma {:induction false} SplitJoin(words: seq<string>)
    requires |words| >= 1
    requires forall w :: w in words ==> ' ' !in w
    ensures Split(Join(words)) == words
    decreases |words|
  {
    if |words| == 1 {
      SplitWord(words[0]);
    } else {
      assert words[0] in words;
      assert forall w :: w in words[1..] ==> w in words;
      SplitJoin(words[1..]);
      SplitSpaced(words[0], Join(words[1..]));
      assert words == [words[0]] + words[1..];
    }
  }

  lemma {:induction false} JoinAppend(a: seq<string>, b: seq<string>)
    requires |a| >= 1 && |b| >= 1
    ensures Join(a + b) == Join(a) + " " + Join(b)
    decreases |a|
  {
    if |a| == 1 {
      JoinCons(a[0], b);
    } else {
      assert (a + b)[1..] == a[1..] + b;
      JoinAppend(a[1..], b);
      assert a + b == [a[0]] + (a[1..] + b);
      JoinCons(a[0], a[1..] + b);
    }
  }

  /** `truncatedText` */
  function Collapsed(text: string): string
  {
    var words := Split(text);
    if |words| > MaxWords then Join(words[..MaxWords]) + "..." else text
  }

  /** With more than 30 words the collapsed text is a prefix of the text made
      of exactly its first 30 words, followed by "...", and so differs from the
      text; otherwise it is the text itself. */
  lemma CollapsedIsFirstWords(text: string)
    ensures |Split(text)| <= MaxWords ==> Collapsed(text) == text
    ensures |Split(text)| > MaxWords ==>
              var words := Split(text);
              var head := Join(words[..MaxWords]);
              && Collapsed(text) == head + "..."
              && Split(head) == words[..MaxWords]
              && text == head + " " + Join(words[MaxWords..])
              && Collapsed(text) != text
  {
    var words := Split(text);
    if |words| > MaxWords {
      var head := Join(words[..MaxWords]);
      var tail := Join(words[MaxWords..]);
      assert forall w :: w in words[..MaxWords] ==> w in words;
      SplitJoin(words[..MaxWords]);
      JoinSplit(text);
      assert words == words[..MaxWords] + words[MaxWords..];
      JoinAppend(words[..MaxWords], words[MaxWords..]);
      assert (head + "...")[|head|] == '.';
      assert (head + " " + tail)[|head|] == ' ';
    }
  }

  /** The paragraph: the full text when expanded, the collapsed text otherwise. */
  function ShownText(text: string, expanded: bool): string
  {
    if expanded then text else Collapsed(text)
  }

  /** The toggle button, when rendered, with its label. */
  function Button(text: string, expanded: bool): Option<string>
  {
    if |Split(text)| > MaxWords then Some(if expanded then "Show Less" else "Read More") else None
  }

  /** `setExpanded(!expanded)` */
  function Click(expanded: bool): bool
  {
    !expanded
  }

  /** The button is rendered exactly when the two views differ. */
  lemma ButtonIffHiddenText(text: string, expanded: bool)
    ensures Button(text, expanded).Some? <==> ShownText(text, true) != ShownText(text, false)
    ensures Button(text, expanded).None? ==> ShownText(text, expanded) == text
  {
    CollapsedIsFirstWords(text);
  }

  /** A click switches to the other view and the other label. */
  lemma ClickSwitchesView(text: string, expanded: bool)
    requires Button(text, expanded).Some?
    ensures ShownText(text, Click(expanded)) != ShownText(text, expanded)
    ensures Button(text, Click(expanded)).Some? && Button(text, Click(expanded)) != Button(text, expanded)
    ensures Click(expanded) ==> ShownText(text, Click(expanded)) == text
  {
    ButtonIffHiddenText(text, expanded);
  }
}
