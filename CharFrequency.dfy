/**
 * Run-length style summary of a string: every distinct character, in the
 * order of its first occurrence, followed by its number of occurrences in
 * parentheses, the items separated by single spaces.
 *
 * The insertion-ordered map the source fills is a key order (`keys`) plus a
 * key-to-count map (`freq`); `Frequencies` is its entry sequence as a value.
 */
module CharFrequency {

  /** No character occurs twice. */
  predicate Distinct(xs: string) {
    forall a, b :: 0 <= a < b < |xs| ==> xs[a] != xs[b]
  }

  /**
   * The distinct characters of `s` in the order of their first occurrence:
   * the key order of an insertion-ordered map after putting each character
   * of `s` in turn (putting a key that is already present keeps its place).
   */
  function FirstOccurrences(s: string): string
  {
    if s == [] then []
    else
      var init := FirstOccurrences(s[..|s| - 1]);
      var c := s[|s| - 1];
      if c in init then init else init + [c]
  }

  /** Putting one more character appends it to the keys exactly when it is new. */
  lemma FirstOccurrencesSnoc(s: string, c: char)
    ensures FirstOccurrences(s + [c]) ==
      if c in FirstOccurrences(s) then FirstOccurrences(s) else FirstOccurrences(s) + [c]
  {
    assert (s + [c])[..|s|] == s;
  }

  /** The keys are exactly the characters of `s`, each once. */
  lemma {:induction false} FirstOccurrencesKeys(s: string)
    ensures forall c :: c in FirstOccurrences(s) <==> c in s
    ensures Distinct(FirstOccurrences(s))
  {
    if s != [] {
      var init := s[..|s| - 1];
      assert s == init + [s[|s| - 1]];
      FirstOccurrencesKeys(init);
    }
  }

  /** The position of the first occurrence of `c` in `s`. */
  function FirstIndex(s: string, c: char): (k: nat)
    requires c in s
    ensures k < |s| && s[k] == c && c !in s[..k]
  {
    if s[0] == c then 0
    else
      var k := 1 + FirstIndex(s[1..], c);
      assert s[..k] == [s[0]] + s[1..][..k - 1];
      k
  }

  /** Appending characters does not move the first occurrence of one already present. */
  lemma FirstIndexOfPrefix(s: string, t: string, c: char)
    requires c in s
    ensures c in s + t && FirstIndex(s + t, c) == FirstIndex(s, c)
  {
    var k := FirstIndex(s, c);
    assert (s + t)[k] == c;
    assert (s + t)[..k] == s[..k];
  }

  /** The keys follow the order of first occurrences in the input. */
  lemma {:induction false} FirstOccurrencesOrdered(s: string)
    ensures forall a, b :: 0 <= a < b < |FirstOccurrences(s)| ==>
      FirstOccurrences(s)[a] in s && FirstOccurrences(s)[b] in s &&
      FirstIndex(s, FirstOccurrences(s)[a]) < FirstIndex(s, FirstOccurrences(s)[b])
  {
    if s != [] {
      var init := s[..|s| - 1];
      var c := s[|s| - 1];
      assert s == init + [c];
      FirstOccurrencesOrdered(init);
      FirstOccurrencesKeys(init);
      var ks, ks' := FirstOccurrences(s), FirstOccurrences(init);
      assert ks == if c in ks' then ks' else ks' + [c];
      forall a, b | 0 <= a < b < |ks|
        ensures ks[a] in s && ks[b] in s && FirstIndex(s, ks[a]) < FirstIndex(s, ks[b])
      {
        assert ks[a] == ks'[a] && ks'[a] in ks';
        FirstIndexOfPrefix(init, [c], ks[a]);
        if b < |ks'| {
          assert ks[b] == ks'[b] && ks'[b] in ks';
          FirstIndexOfPrefix(init, [c], ks[b]);
        } else {
          assert ks[b] == c && c !in init;
          var k := FirstIndex(s, c);
          assert FirstIndex(s, ks[a]) == FirstIndex(init, ks[a]) < |init| <= k;
        }
      }
    } else {
      assert FirstOccurrences(s) == [];
    }
  }

  /** Each key paired with its count in `m`, in key order. */
  function Entries(keys: string, m: multiset<char>): seq<(char, nat)>
  {
    if keys == [] then []
    else
      var last := keys[|keys| - 1];
      Entries(keys[..|keys| - 1], m) + [(last, m[last])]
  }

  /** One more key adds its entry at the end. */
  lemma EntriesSnoc(keys: string, m: multiset<char>, c: char)
    ensures Entries(keys + [c], m) == Entries(keys, m) + [(c, m[c])]
  {
    assert (keys + [c])[..|keys|] == keys;
  }

  /** The `k`-th entry is the `k`-th key with its count. */
  lemma {:induction false} EntriesAt(keys: string, m: multiset<char>)
    ensures |Entries(keys, m)| == |keys|
    ensures forall k :: 0 <= k < |keys| ==> Entries(keys, m)[k] == (keys[k], m[keys[k]])
  {
    if keys != [] {
      EntriesAt(keys[..|keys| - 1], m);
    }
  }

  /** The entries of the frequency map after the first loop: (character, occurrences). */
  function Frequencies(s: string): seq<(char, nat)>
  {
    Entries(FirstOccurrences(s), multiset(s))
  }

  /** The sum of the counts of a list of entries. */
  function Total(es: seq<(char, nat)>): nat
  {
    if es == [] then 0 else Total(es[..|es| - 1]) + es[|es| - 1].1
  }

  /** One more occurrence of `c` adds one to the total exactly when `c` is a key. */
  lemma {:induction false} TotalAddOne(keys: string, m: multiset<char>, c: char)
    requires Distinct(keys)
    ensures Total(Entries(keys, m + multiset{c})) == Total(Entries(keys, m)) + (if c in keys then 1 else 0)
  {
    if keys != [] {
      var init := keys[..|keys| - 1];
      var last := keys[|keys| - 1];
      assert keys == init + [last];
      TotalAddOne(init, m, c);
      var e, e' := Entries(keys, m), Entries(keys, m + multiset{c});
      assert e[..|e| - 1] == Entries(init, m);
      assert e'[..|e'| - 1] == Entries(init, m + multiset{c});
      assert c in keys <==> c in init || c == last;
    }
  }

  /** The counts of all keys add up to the input length. */
  lemma {:induction false} TotalIsLength(s: string)
    ensures Total(Frequencies(s)) == |s|
  {
    if s != [] {
      var init := s[..|s| - 1];
      var c := s[|s| - 1];
      assert s == init + [c];
      assert multiset(s) == multiset(init) + multiset{c};
      TotalIsLength(init);
      FirstOccurrencesKeys(init);
      var ks := FirstOccurrences(init);
      TotalAddOne(ks, multiset(init), c);
      if c !in ks {
        var e := Entries(ks + [c], multiset(s));
        assert (ks + [c])[..|ks|] == ks;
        assert e[..|e| - 1] == Entries(ks, multiset(s));
        assert multiset(init)[c] == 0;
      }
    }
  }

  /**
   * The frequency map holds one entry per distinct character of `s`, each
   * with its number of occurrences (at least one), and the counts add up to
   * `|s|`.
   */
  lemma FrequenciesCorrect(s: string)
    ensures var es := Frequencies(s);
      forall a, b :: 0 <= a < b < |es| ==> es[a].0 != es[b].0
    ensures var es := Frequencies(s);
      forall k :: 0 <= k < |es| ==> es[k].0 in s && es[k].1 == multiset(s)[es[k].0] && es[k].1 >= 1
    ensures var es := Frequencies(s);
      forall c :: c in s ==> exists k :: 0 <= k < |es| && es[k].0 == c
    ensures Total(Frequencies(s)) == |s|
  {
    var ks := FirstOccurrences(s);
    var es := Frequencies(s);
    FirstOccurrencesKeys(s);
    EntriesAt(ks, multiset(s));
    forall k | 0 <= k < |es| ensures es[k].0 in s && es[k].1 >= 1 {
      assert ks[k] in ks;
    }
    forall c | c in s ensures exists k :: 0 <= k < |es| && es[k].0 == c {
      var k :| 0 <= k < |ks| && ks[k] == c;
      assert es[k].0 == c;
    }
    TotalIsLength(s);
  }

  /** The entries come in the order of the first occurrences of their characters. */
  lemma FrequenciesOrdered(s: string)
    ensures var es := Frequencies(s);
      forall a, b :: 0 <= a < b < |es| ==>
        es[a].0 in s && es[b].0 in s && FirstIndex(s, es[a].0) < FirstIndex(s, es[b].0)
  {
    FirstOccurrencesOrdered(s);
    EntriesAt(FirstOccurrences(s), multiset(s));
  }

  /** The ASCII digit for `d`. */
  function Digit(d: nat): (c: char)
    requires d < 10
    ensures '0' <= c <= '9'
  {
    (48 + d) as char
  }

  /** The decimal numeral of `n`, as `Integer.toString` writes it. */
  function Decimal(n: nat): (r: string)
    ensures |r| >= 1
    ensures forall k :: 0 <= k < |r| ==> '0' <= r[k] <= '9'
    ensures r[0] == '0' ==> n == 0
  {
    if n < 10 then [Digit(n)] else Decimal(n / 10) + [Digit(n % 10)]
  }

  /** The value of a string of decimal digits. */
  function ParseDecimal(s: string): nat
    requires forall k :: 0 <= k < |s| ==> '0' <= s[k] <= '9'
  {
    if s == [] then 0
    else 10 * ParseDecimal(s[..|s| - 1]) + (s[|s| - 1] as int - 48)
  }

  /** Reading the numeral back gives the number. */
  lemma {:induction false} DecimalRoundTrip(n: nat)
    ensures ParseDecimal(Decimal(n)) == n
  {
    if n >= 10 {
      var d := Decimal(n / 10);
      DecimalRoundTrip(n / 10);
      assert (d + [Digit(n % 10)])[..|d|] == d;
    }
  }

  /** One formatted item `c(n)`. */
  function Item(e: (char, nat)): string
  {
    [e.0] + "(" + Decimal(e.1) + ")"
  }

  /** What the second loop appends: every item followed by one space. */
  function Format(es: seq<(char, nat)>): string
  {
    if es == [] then "" else Format(es[..|es| - 1]) + Item(es[|es| - 1]) + " "
  }

  /** One more entry appends its item and a space. */
  lemma FormatSnoc(es: seq<(char, nat)>, e: (char, nat))
    ensures Format(es + [e]) == Format(es) + Item(e) + " "
  {
    assert (es + [e])[..|es|] == es;
  }

  /** The four appends of one entry write its item and a space. */
  lemma AppendItem(x: string, c: char, d: string)
    ensures x + [c] + "(" + d + ") " == x + ([c] + "(" + d + ")") + " "
  {
  }

  /** The items joined by single spaces. */
  function Joined(es: seq<(char, nat)>): string
  {
    if es == [] then ""
    else if |es| == 1 then Item(es[0])
    else Joined(es[..|es| - 1]) + " " + Item(es[|es| - 1])
  }

  /** The untrimmed output is the joined items plus one trailing space. */
  lemma {:induction false} FormatIsJoined(es: seq<(char, nat)>)
    ensures es != [] ==> Format(es) == Joined(es) + " "
    ensures es == [] ==> Format(es) == ""
  {
    if |es| > 1 {
      FormatIsJoined(es[..|es| - 1]);
    } else if |es| == 1 {
      assert es[..0] == [];
    }
  }

  /** The joined items start with the first key and end with a closing parenthesis. */
  lemma {:induction false} JoinedEnds(es: seq<(char, nat)>)
    requires es != []
    ensures |Joined(es)| > 0 && Joined(es)[0] == es[0].0 && Joined(es)[|Joined(es)| - 1] == ')'
  {
    if |es| > 1 {
      var init := es[..|es| - 1];
      JoinedEnds(init);
      assert init[0] == es[0];
    }
  }

  /** `String.trim`'s first loop: from `st`, skip characters at or below U+0020. */
  function SkipLeading(s: string, st: nat): (j: nat)
    requires st <= |s|
    ensures st <= j <= |s|
    ensures forall k :: st <= k < j ==> s[k] <= ' '
    ensures j < |s| ==> s[j] > ' '
    decreases |s| - st
  {
    if st < |s| && s[st] <= ' ' then SkipLeading(s, st + 1) else st
  }

  /** `String.trim`'s second loop: move `len` back over characters at or below U+0020, not below `st`. */
  function SkipTrailing(s: string, st: nat, len: nat): (j: nat)
    requires st <= len <= |s|
    ensures st <= j <= len
    ensures forall k :: j <= k < len ==> s[k] <= ' '
    ensures j > st ==> s[j - 1] > ' '
    decreases len
  {
    if st < len && s[len - 1] <= ' ' then SkipTrailing(s, st, len - 1) else len
  }

  /**
   * Java's `String.trim`: the middle part of `s` left after cutting off the
   * characters at or below U+0020 on both sides; it starts and ends with a
   * character above U+0020 unless it is empty.
   */
  function Trim(s: string): (r: string)
    ensures var st := SkipLeading(s, 0);
      st + |r| <= |s| && r == s[st..st + |r|] &&
      (forall k :: 0 <= k < st ==> s[k] <= ' ') &&
      (forall k :: st + |r| <= k < |s| ==> s[k] <= ' ')
    ensures r != [] ==> r[0] > ' ' && r[|r| - 1] > ' '
  {
    var st := SkipLeading(s, 0);
    s[st..SkipTrailing(s, st, |s|)]
  }

  /** A clean string followed by one space trims back to itself. */
  lemma TrimTrailingSpace(x: string)
    requires x != [] && x[0] > ' ' && x[|x| - 1] > ' '
    ensures Trim(x + " ") == x
  {
    var s := x + " ";
    assert SkipLeading(s, 0) == 0;
    assert SkipTrailing(s, 0, |s|) == SkipTrailing(s, 0, |x|) == |x|;
    assert s[0..|x|] == x;
  }

  /**
   * When no input character is at or below U+0020 the output is the items
   * `c(n)` joined by single spaces, with no trailing space.
   */
  lemma TrimmedShape(s: string)
    requires forall k :: 0 <= k < |s| ==> s[k] > ' '
    ensures Trim(Format(Frequencies(s))) == Joined(Frequencies(s))
  {
    var es := Frequencies(s);
    if es != [] {
      FrequenciesCorrect(s);
      assert es[0].0 in s;
    }
    TrimFormat(es);
  }

  /** Formatted entries whose first key is above U+0020 trim to the joined items. */
  lemma TrimFormat(es: seq<(char, nat)>)
    requires es != [] ==> es[0].0 > ' '
    ensures Trim(Format(es)) == Joined(es)
  {
    FormatIsJoined(es);
    if es != [] {
      JoinedEnds(es);
      TrimTrailingSpace(Joined(es));
    }
  }

  /** An empty input gives the empty string. */
  lemma EmptyInput()
    ensures Trim(Format(Frequencies(""))) == ""
  {
  }

  /** `n` copies of `c`. */
  function Repeat(c: char, n: nat): string
  {
    if n == 0 then [] else Repeat(c, n - 1) + [c]
  }

  /** Each entry `(c, n)` spelt out as `n` copies of `c`, in order. */
  function Runs(rs: seq<(char, nat)>): string
  {
    if rs == [] then [] else Runs(rs[..|rs| - 1]) + Repeat(rs[|rs| - 1].0, rs[|rs| - 1].1)
  }

  /** A list of entries with pairwise distinct characters and positive counts. */
  predicate WellFormedRuns(rs: seq<(char, nat)>) {
    (forall a, b :: 0 <= a < b < |rs| ==> rs[a].0 != rs[b].0) &&
    (forall k :: 0 <= k < |rs| ==> rs[k].1 >= 1)
  }

  /** `Repeat(c, n)` holds `c` exactly `n` times and no other character. */
  lemma {:induction false} RepeatCount(c: char, n: nat, d: char)
    ensures multiset(Repeat(c, n))[d] == if d == c then n else 0
  {
    if n > 0 {
      RepeatCount(c, n - 1, d);
    }
  }

  /** A run of a new character adds that character, once, at the end of the keys. */
  lemma {:induction false} FirstOccurrencesRepeat(x: string, c: char, n: nat)
    requires n >= 1 && c !in x
    ensures FirstOccurrences(x + Repeat(c, n)) == FirstOccurrences(x) + [c]
  {
    var y := x + Repeat(c, n - 1);
    assert x + Repeat(c, n) == y + [c];
    FirstOccurrencesSnoc(y, c);
    if n == 1 {
      assert y == x;
      FirstOccurrencesKeys(x);
    } else {
      FirstOccurrencesRepeat(x, c, n - 1);
    }
  }

  /** A character of one of the runs occurs as often as that run is long. */
  lemma {:induction false} RunsCount(rs: seq<(char, nat)>, k: nat)
    requires WellFormedRuns(rs) && k < |rs|
    ensures multiset(Runs(rs))[rs[k].0] == rs[k].1
  {
    var init, last := rs[..|rs| - 1], rs[|rs| - 1];
    var c := rs[k].0;
    assert multiset(Runs(rs)) == multiset(Runs(init)) + multiset(Repeat(last.0, last.1));
    RepeatCount(last.0, last.1, c);
    if k < |init| {
      assert init[k] == rs[k];
      RunsCount(init, k);
    } else {
      assert forall j :: 0 <= j < |init| ==> init[j].0 != c;
      RunsMissing(init, c);
    }
  }

  /** A character of none of the runs does not occur. */
  lemma {:induction false} RunsMissing(rs: seq<(char, nat)>, c: char)
    requires forall k :: 0 <= k < |rs| ==> rs[k].0 != c
    ensures multiset(Runs(rs))[c] == 0
  {
    if rs != [] {
      var init, last := rs[..|rs| - 1], rs[|rs| - 1];
      assert multiset(Runs(rs)) == multiset(Runs(init)) + multiset(Repeat(last.0, last.1));
      RepeatCount(last.0, last.1, c);
      assert forall j :: 0 <= j < |init| ==> init[j] == rs[j];
      RunsMissing(init, c);
    }
  }

  /** Spelling out a list of distinct runs and counting it gives the list back. */
  lemma {:induction false} FrequenciesOfRuns(rs: seq<(char, nat)>)
    requires WellFormedRuns(rs)
    ensures Frequencies(Runs(rs)) == rs
  {
    KeysOfRuns(rs);
    var ks := FirstOccurrences(Runs(rs));
    EntriesAt(ks, multiset(Runs(rs)));
    forall k | 0 <= k < |rs| ensures Frequencies(Runs(rs))[k] == rs[k] {
      RunsCount(rs, k);
    }
  }

  /** The keys of the spelt-out runs are the runs' characters, in order. */
  lemma {:induction false} KeysOfRuns(rs: seq<(char, nat)>)
    requires WellFormedRuns(rs)
    ensures |FirstOccurrences(Runs(rs))| == |rs|
    ensures forall k :: 0 <= k < |rs| ==> FirstOccurrences(Runs(rs))[k] == rs[k].0
  {
    if rs != [] {
      var init, last := rs[..|rs| - 1], rs[|rs| - 1];
      assert forall j :: 0 <= j < |init| ==> init[j] == rs[j];
      KeysOfRuns(init);
      RunsMissing(init, last.0);
      FirstOccurrencesRepeat(Runs(init), last.0, last.1);
    }
  }

  /** The five runs of the example input. */
  lemma ExampleRepeats()
    ensures Repeat('a', 3) == "aaa" && Repeat('b', 2) == "bb" && Repeat('c', 4) == "cccc"
    ensures Repeat('d', 5) == "ddddd" && Repeat('f', 5) == "fffff"
  {
  }

  /** The example input spelt as runs. */
  lemma ExampleRuns()
    ensures Runs([('a', 3), ('b', 2), ('c', 4), ('d', 5), ('f', 5)]) == "aaabbccccdddddfffff"
  {
    var rs: seq<(char, nat)> := [('a', 3), ('b', 2), ('c', 4), ('d', 5), ('f', 5)];
    ExampleRepeats();
    assert |rs[..1][..0]| == 0;
    assert Runs(rs[..1]) == "aaa";
    assert rs[..2][..1] == rs[..1];
    assert Runs(rs[..2]) == "aaabb";
    assert rs[..3][..2] == rs[..2];
    assert Runs(rs[..3]) == "aaabbcccc";
    assert rs[..4][..3] == rs[..3];
    assert Runs(rs[..4]) == "aaabbccccddddd";
    assert rs[..5][..4] == rs[..4];
    assert rs[..5] == rs;
  }

  /** The example's runs have distinct characters and positive counts. */
  lemma ExampleWellFormed()
    ensures WellFormedRuns([('a', 3), ('b', 2), ('c', 4), ('d', 5), ('f', 5)])
  {
  }

  /** The five items of the example's output. */
  lemma ExampleItems()
    ensures Item(('a', 3)) == "a(3)" && Item(('b', 2)) == "b(2)" && Item(('c', 4)) == "c(4)"
    ensures Item(('d', 5)) == "d(5)" && Item(('f', 5)) == "f(5)"
  {
  }

  /** The example items joined. */
  lemma ExampleJoined()
    ensures Joined([('a', 3), ('b', 2), ('c', 4), ('d', 5), ('f', 5)]) == "a(3) b(2) c(4) d(5) f(5)"
  {
    var es: seq<(char, nat)> := [('a', 3), ('b', 2), ('c', 4), ('d', 5), ('f', 5)];
    ExampleItems();
    assert es[..1] == [es[0]];
    assert Joined(es[..1]) == "a(3)";
    assert es[..2][..1] == es[..1];
    assert Joined(es[..2]) == "a(3) b(2)";
    assert es[..3][..2] == es[..2];
    assert Joined(es[..3]) == "a(3) b(2) c(4)";
    assert es[..4][..3] == es[..3];
    assert Joined(es[..4]) == "a(3) b(2) c(4) d(5)";
    assert es[..5][..4] == es[..4];
    assert es[..5] == es;
  }

  /** The example input of the program and the line it prints. */
  lemma Example()
    ensures Trim(Format(Frequencies("aaabbccccdddddfffff"))) == "a(3) b(2) c(4) d(5) f(5)"
  {
    var rs: seq<(char, nat)> := [('a', 3), ('b', 2), ('c', 4), ('d', 5), ('f', 5)];
    ExampleRuns();
    ExampleWellFormed();
    FrequenciesOfRuns(rs);
    TrimFormat(rs);
    ExampleJoined();
  }

  /**
   * A blank first character becomes a key like any other, and the final trim
   * then cuts it off the front of the line: " a" gives "(1) a(1)".
   */
  lemma LeadingBlankKeyIsTrimmed()
    ensures Trim(Format(Frequencies(" a"))) == "(1) a(1)"
  {
    var rs: seq<(char, nat)> := [(' ', 1), ('a', 1)];
    BlankRuns();
    assert WellFormedRuns(rs);
    FrequenciesOfRuns(rs);
    BlankFormat();
    TrimBlankExample();
  }

  /** The input " a" spelt as runs. */
  lemma BlankRuns()
    ensures Runs([(' ', 1), ('a', 1)]) == " a"
  {
    var rs: seq<(char, nat)> := [(' ', 1), ('a', 1)];
    assert rs[..1] == [(' ', 1)] && rs[..1][..0] == [];
  }

  /** The untrimmed output for " a". */
  lemma BlankFormat()
    ensures Format([(' ', 1), ('a', 1)]) == " (1) a(1) "
  {
    var rs: seq<(char, nat)> := [(' ', 1), ('a', 1)];
    assert Item(rs[0]) == " (1)" && Item(rs[1]) == "a(1)";
    assert rs[..1] == [rs[0]] && rs[..1][..0] == [];
    assert Format(rs[..1]) == " (1) ";
  }

  /** Trimming that output drops its first and last characters. */
  lemma TrimBlankExample()
    ensures Trim(" (1) a(1) ") == "(1) a(1)"
  {
    var out := " (1) a(1) ";
    assert SkipLeading(out, 0) == SkipLeading(out, 1) == 1;
    assert SkipTrailing(out, 1, 10) == SkipTrailing(out, 1, 9) == 9;
    assert out[1..9] == "(1) a(1)";
  }

  /**
   * `compressString`: count every character into an insertion-ordered map,
   * append `key(count) ` for each entry in map order, and trim the result.
   */
  method CompressString(str: string) returns (out: string)
    ensures out == Trim(Format(Frequencies(str)))
    ensures (forall k :: 0 <= k < |str| ==> str[k] > ' ') ==> out == Joined(Frequencies(str))
  {
    var keys, freq := CountCharacters(str);
    FirstOccurrencesKeys(str);
    var result := AppendEntries(keys, freq, multiset(str));
    out := Trim(result);
    if forall k :: 0 <= k < |str| ==> str[k] > ' ' {
      TrimmedShape(str);
    }
  }

  /**
   * The first loop of `compressString`: `put(ch, getOrDefault(ch, 0) + 1)`
   * for every character. The map's key order is `keys`, its contents `freq`;
   * a key put for the first time goes to the end of the order.
   */
  method CountCharacters(str: string) returns (keys: string, freq: map<char, nat>)
    ensures keys == FirstOccurrences(str)
    ensures forall c :: c in freq <==> c in str
    ensures forall c :: c in freq ==> freq[c] == multiset(str)[c]
  {
    keys, freq := [], map[];
    var i := 0;
    while i < |str|
      invariant 0 <= i <= |str|
      invariant keys == FirstOccurrences(str[..i])
      invariant forall c :: c in freq <==> c in str[..i]
      invariant forall c :: c in freq ==> freq[c] == multiset(str[..i])[c]
    {
      var ch := str[i];
      assert str[..i + 1] == str[..i] + [ch];
      FirstOccurrencesKeys(str[..i]);
      FirstOccurrencesSnoc(str[..i], ch);
      assert multiset(str[..i + 1]) == multiset(str[..i]) + multiset{ch};
      var count := if ch in freq then freq[ch] else 0;
      if ch !in freq {
        keys := keys + [ch];
      }
      freq := freq[ch := count + 1];
      i := i + 1;
    }
    assert str[..i] == str;
  }

  /**
   * The second loop of `compressString`: for each key in map order, append
   * the key, `(`, its count and `) `.
   */
  method AppendEntries(keys: string, freq: map<char, nat>, ghost m: multiset<char>) returns (result: string)
    requires forall c :: c in keys ==> c in freq && freq[c] == m[c]
    ensures result == Format(Entries(keys, m))
  {
    result := "";
    var k := 0;
    while k < |keys|
      invariant 0 <= k <= |keys|
      invariant result == Format(Entries(keys[..k], m))
    {
      var key := keys[k];
      assert keys[..k + 1] == keys[..k] + [key];
      assert key in keys;
      EntriesSnoc(keys[..k], m, key);
      FormatSnoc(Entries(keys[..k], m), (key, freq[key]));
      AppendItem(result, key, Decimal(freq[key]));
      result := result + [key] + "(" + Decimal(freq[key]) + ") ";
      k := k + 1;
    }
    assert keys[..k] == keys;
  }
}
