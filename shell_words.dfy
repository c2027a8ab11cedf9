/**
 * How a command line built by concatenating words with " " splits back into words,
 * and which of them the device's shell passes on as arguments: its field splitting
 * drops the empty words that doubled, leading or trailing spaces leave. Quote removal
 * and the shell's other expansions are not modelled.
 */
module ShellWords {

  /** `s` split at every space; consecutive spaces give empty words. */
  function Words(s: string): (ws: seq<string>)
    ensures |ws| >= 1
  {
    if s == [] then [""]
    else
      var rest := Words(s[1..]);
      if s[0] == ' ' then [""] + rest else [[s[0]] + rest[0]] + rest[1..]
  }

  /** The words joined with one space between neighbours. */
  function Join(ws: seq<string>): string
    requires |ws| >= 1
  {
    if |ws| == 1 then ws[0] else ws[0] + " " + Join(ws[1..])
  }

  /** Joining two lists of words puts one space between them. */
  lemma {:induction false} JoinAppend(a: seq<string>, b: seq<string>)
    requires |a| >= 1 && |b| >= 1
    ensures Join(a + b) == Join(a) + " " + Join(b)
  {
    if |a| > 1 {
      assert (a + b)[1..] == a[1..] + b;
      JoinAppend(a[1..], b);
    } else {
      assert (a + b)[1..] == b;
    }
  }

  /** A text without spaces is a single word. */
  lemma {:induction false} WordsOfWord(w: string)
    requires ' ' !in w
    ensures Words(w) == [w]
  {
    if w != [] {
      WordsOfWord(w[1..]);
      assert [w[0]] + w[1..] == w;
    }
  }

  /** Splitting at a space splits the words. */
  lemma {:induction false} WordsAtSpace(a: string, b: string)
    ensures Words(a + " " + b) == Words(a) + Words(b)
  {
    if a == [] {
      assert a + " " + b == [' '] + b;
      assert ([' '] + b)[1..] == b;
    } else {
      var s := a + " " + b;
      assert s[0] == a[0];
      assert s[1..] == a[1..] + " " + b;
      WordsAtSpace(a[1..], b);
    }
  }

  /** Splitting undoes joining, as long as no word holds a space. */
  lemma {:induction false} WordsJoin(ws: seq<string>)
    requires |ws| >= 1
    requires forall k :: 0 <= k < |ws| ==> ' ' !in ws[k]
    ensures Words(Join(ws)) == ws
  {
    WordsOfWord(ws[0]);
    if |ws| > 1 {
      WordsJoin(ws[1..]);
      WordsAtSpace(ws[0], Join(ws[1..]));
      assert [ws[0]] + ws[1..] == ws;
    }
  }

  /** The words that are not empty, in order: what field splitting keeps of an unquoted line. */
  function Fields(ws: seq<string>): (fs: seq<string>)
    ensures |fs| <= |ws|
    ensures forall k :: 0 <= k < |fs| ==> fs[k] != "" && fs[k] in ws
  {
    if ws == [] then [] else (if ws[0] == "" then [] else [ws[0]]) + Fields(ws[1..])
  }

  /** The arguments the device's shell passes for a command line. */
  function Arguments(s: string): seq<string> {
    Fields(Words(s))
  }

  /** Field splitting works list by list. */
  lemma {:induction false} FieldsAppend(a: seq<string>, b: seq<string>)
    ensures Fields(a + b) == Fields(a) + Fields(b)
  {
    if a != [] {
      assert (a + b)[1..] == a[1..] + b;
      FieldsAppend(a[1..], b);
    } else {
      assert a + b == b;
    }
  }

  /** Field splitting keeps a list with no empty word as it is. */
  lemma {:induction false} FieldsNonEmpty(ws: seq<string>)
    requires forall k :: 0 <= k < |ws| ==> ws[k] != ""
    ensures Fields(ws) == ws
  {
    if ws != [] {
      FieldsNonEmpty(ws[1..]);
      assert [ws[0]] + ws[1..] == ws;
    }
  }
}
