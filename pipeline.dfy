/**
 * `translate_subtitles`: walk the lines of a subtitle file in order, keep the
 * structural ones, replace the others by the translator's output, report
 * progress on a fixed schedule and finish with one completion message.
 *
 * The translator is a parameter (`GoogleTranslate` over some service in the
 * bot), and the progress callback is the log of messages it receives.
 */
module Pipeline {
  import opened Text
  import opened LineClassifier
  import TranslationClient

  // ---- The progress schedule ----

  /** Lines between two percentage reports (`total // 5 + 1`), never zero. */
  function Interval(total: nat): (k: nat)
    ensures k >= 1
  {
    total / 5 + 1
  }

  /** A report follows line `i` of `total` lines. */
  predicate ReportsAfter(total: nat, i: nat) {
    i % Interval(total) == 0
  }

  /** The percentage reported after line `i`, in integer arithmetic. */
  function Percent(i: nat, total: nat): (p: nat)
    requires i < total
    ensures p < 100
  {
    i * 100 / total
  }

  /** The percentages reported while processing the first `m` lines. */
  function Reports(total: nat, m: nat): seq<nat>
    requires m <= total
  {
    if m == 0 then []
    else Reports(total, m - 1) + (if ReportsAfter(total, m - 1) then [Percent(m - 1, total)] else [])
  }

  /** All percentages reported by a run over `total` lines. */
  function Schedule(total: nat): seq<nat> {
    Reports(total, total)
  }

  // ---- The callback messages ----

  /** The status string of a percentage report. */
  function ProgressMessage(p: nat): string {
    "🔄 Progress: " + NatToString(p) + "%"
  }

  /** The status string sent when all lines are done. */
  const CompletionMessage: string := "✅ Translation complete."

  function ProgressMessages(ps: seq<nat>): (r: seq<string>)
    ensures |r| == |ps|
  {
    if |ps| == 0 then [] else ProgressMessages(ps[..|ps| - 1]) + [ProgressMessage(ps[|ps| - 1])]
  }

  lemma ProgressMessagesSnoc(ps: seq<nat>, p: nat)
    ensures ProgressMessages(ps + [p]) == ProgressMessages(ps) + [ProgressMessage(p)]
  {
    assert (ps + [p])[..|ps|] == ps;
  }

  // ---- The translated lines ----

  /** The output line for one input line. */
  function TranslateLine(line: string, lang: string, translate: (string, string) -> string): string {
    if Classify(line) == Structural then line else translate(line, lang)
  }

  /** The output lines, one per input line. */
  function TranslatedLines(lines: seq<string>, lang: string, translate: (string, string) -> string): seq<string> {
    seq(|lines|, i requires 0 <= i < |lines| => TranslateLine(lines[i], lang, translate))
  }

  /** The text `translate_subtitles` returns. */
  function TranslatedText(content: string, lang: string, translate: (string, string) -> string): string {
    Join(TranslatedLines(SplitLines(content), lang, translate), "\n")
  }

  /** The indices of the lines the translator is called on, in call order. */
  function Calls(lines: seq<string>): seq<nat> {
    if |lines| == 0 then []
    else Calls(lines[..|lines| - 1]) +
         (if Classify(lines[|lines| - 1]) == Translatable then [|lines| - 1] else [])
  }

  lemma TranslatedLinesStep(lines: seq<string>, i: nat, lang: string, translate: (string, string) -> string)
    requires i < |lines|
    ensures TranslatedLines(lines[..i + 1], lang, translate) ==
            TranslatedLines(lines[..i], lang, translate) + [TranslateLine(lines[i], lang, translate)]
  {
  }

  lemma CallsStep(lines: seq<string>, i: nat)
    requires i < |lines|
    ensures Calls(lines[..i + 1]) ==
            Calls(lines[..i]) + (if Classify(lines[i]) == Translatable then [i] else [])
  {
    assert lines[..i + 1][..i] == lines[..i];
  }

  lemma ReportsStep(total: nat, i: nat)
    requires i < total
    ensures Reports(total, i + 1) ==
            Reports(total, i) + (if ReportsAfter(total, i) then [Percent(i, total)] else [])
  {
  }

  /**
   * The loop of `translate_subtitles`. The ghost `calls` records the index of
   * every line handed to the translator.
   */
  method TranslateSubtitles(content: string, lang: string, translate: (string, string) -> string)
    returns (output: string, log: seq<string>, ghost calls: seq<nat>)
    ensures output == TranslatedText(content, lang, translate)
    ensures log == ProgressMessages(Schedule(|SplitLines(content)|)) + [CompletionMessage]
    ensures calls == Calls(SplitLines(content))
  {
    var lines := SplitLines(content);
    var total := |lines|;
    var result: seq<string> := [];
    log, calls := [], [];
    var i := 0;
    while i < total
      invariant 0 <= i <= total
      invariant result == TranslatedLines(lines[..i], lang, translate)
      invariant log == ProgressMessages(Reports(total, i))
      invariant calls == Calls(lines[..i])
    {
      var line := lines[i];
      CallsStep(lines, i);
      TranslatedLinesStep(lines, i, lang, translate);
      if Classify(line) == Translatable {
        var t := translate(line, lang);
        result := result + [t];
        calls := calls + [i];
      } else {
        result := result + [line];
      }
      ReportsStep(total, i);
      if i % Interval(total) == 0 {
        ProgressMessagesSnoc(Reports(total, i), Percent(i, total));
        log := log + [ProgressMessage(Percent(i, total))];
      } else {
        assert Reports(total, i + 1) == Reports(total, i);
      }
      i := i + 1;
    }
    log := log + [CompletionMessage];
    assert lines[..total] == lines;
    output := Join(result, "\n");
  }

  // ---- Integer arithmetic used by the schedule ----

  lemma {:induction false} MulAtLeast(x: int, k: int)
    requires x >= 1 && k > 0
    ensures x * k >= k
    decreases x
  {
    if x > 1 {
      MulAtLeast(x - 1, k);
      assert x * k == (x - 1) * k + k;
    }
  }

  lemma MulMono(x: int, y: int, k: int)
    requires x <= y && k > 0
    ensures x * k <= y * k
  {
    if x < y {
      MulAtLeast(y - x, k);
      assert y * k - x * k == (y - x) * k;
    }
  }

  /** Quotient and remainder are determined by `a == q * k + r` with `0 <= r < k`. */
  lemma DivUnique(a: int, k: int, q: int, r: int)
    requires k > 0 && 0 <= r < k && a == q * k + r
    ensures a / k == q && a % k == r
  {
    var q', r' := a / k, a % k;
    assert a == q' * k + r';
    assert (q' - q) * k == r - r' by {
      assert (q' - q) * k == q' * k - q * k;
    }
    if q' > q {
      MulAtLeast(q' - q, k);
    } else if q' < q {
      MulAtLeast(q - q', k);
    }
  }

  /** A number at least one whole `total` above `a` has a larger quotient. */
  lemma DivGap(a: nat, b: nat, total: nat)
    requires total > 0 && a + total <= b
    ensures a / total < b / total
  {
    var q, qb := a / total, b / total;
    if qb <= q {
      MulMono(qb + 1, q + 1, total);
    }
  }

  /** Two different multiples of `k` are at least `k` apart. */
  lemma MultiplesApart(i: nat, j: nat, k: nat)
    requires k >= 1 && i < j && i % k == 0 && j % k == 0
    ensures i + k <= j
  {
    var p, q := i / k, j / k;
    assert i == p * k && j == q * k;
    if q <= p {
      MulMono(q, p, k);
    }
    MulMono(p + 1, q, k);
    assert (p + 1) * k == p * k + k;
  }

  /** Five intervals cover the whole file. */
  lemma IntervalBound(total: nat)
    ensures total < 5 * Interval(total)
  {
  }

  // ---- Properties of the schedule ----

  /** One more line adds a report exactly when that line's index is a multiple of the interval. */
  lemma CeilStep(m: nat, k: nat)
    requires k >= 1
    ensures (m + 1 + k - 1) / k == (m + k - 1) / k + (if m % k == 0 then 1 else 0)
  {
    var q, r := m / k, m % k;
    assert m == q * k + r;
    assert (q + 1) * k == q * k + k;
    if r == 0 {
      DivUnique(m + k - 1, k, q, k - 1);
      DivUnique(m + k, k, q + 1, 0);
    } else {
      DivUnique(m + k - 1, k, q + 1, r - 1);
      DivUnique(m + k, k, q + 1, r);
    }
  }

  lemma {:induction false} ReportsCount(total: nat, m: nat)
    requires m <= total
    ensures |Reports(total, m)| == (m + Interval(total) - 1) / Interval(total)
  {
    var k := Interval(total);
    if m == 0 {
      assert (k - 1) / k == 0;
    } else {
      ReportsCount(total, m - 1);
      CeilStep(m - 1, k);
    }
  }

  /**
   * A run over `total` lines makes one report per multiple of the interval
   * below `total` (the rounded-up quotient), which is never more than five.
   */
  lemma ScheduleCount(total: nat)
    ensures |Schedule(total)| == (total + Interval(total) - 1) / Interval(total)
    ensures |Schedule(total)| <= 5
  {
    var k := Interval(total);
    IntervalBound(total);
    ReportsCount(total, total);
    var q := (total + k - 1) / k;
    assert q * k <= total + k - 1;
    if q > 5 {
      MulMono(6, q, k);
    }
  }

  lemma {:induction false} ReportsMembership(total: nat, m: nat, p: nat)
    requires m <= total
    ensures p in Reports(total, m) <==>
              exists i :: 0 <= i < m && ReportsAfter(total, i) && p == Percent(i, total)
  {
    if m > 0 {
      ReportsMembership(total, m - 1, p);
      if p == Percent(m - 1, total) && ReportsAfter(total, m - 1) {
        assert p in Reports(total, m);
      }
    }
  }

  /**
   * A percentage is reported exactly when it is the percentage of a line whose
   * index is a multiple of the interval.
   */
  lemma ScheduleMembership(total: nat, p: nat)
    ensures p in Schedule(total) <==>
              exists i :: 0 <= i < total && ReportsAfter(total, i) && p == Percent(i, total)
  {
    ReportsMembership(total, total, p);
  }

  /** Every reported percentage lies in [0, 100). */
  lemma ScheduleBounds(total: nat)
    ensures forall k :: 0 <= k < |Schedule(total)| ==> Schedule(total)[k] < 100
  {
    forall k | 0 <= k < |Schedule(total)| ensures Schedule(total)[k] < 100 {
      ScheduleMembership(total, Schedule(total)[k]);
    }
  }

  lemma {:induction false} ReportsStart(total: nat, m: nat)
    requires 0 < m <= total
    ensures |Reports(total, m)| > 0 && Reports(total, m)[0] == 0
  {
    if m > 1 {
      ReportsStart(total, m - 1);
    }
  }

  /** A non-empty file reports 0% after its first line; an empty one makes no report. */
  lemma ScheduleStart(total: nat)
    ensures total == 0 ==> Schedule(total) == []
    ensures total > 0 ==> |Schedule(total)| > 0 && Schedule(total)[0] == 0
  {
    if total > 0 {
      ReportsStart(total, total);
    }
  }

  /** Each element is smaller than every later one. */
  ghost predicate StrictlyIncreasing(s: seq<nat>) {
    forall a, b :: 0 <= a < b < |s| ==> s[a] < s[b]
  }

  /** A report made after line `m` is above every earlier report. */
  lemma LaterReportIsHigher(total: nat, m: nat, p: nat)
    requires m < total && ReportsAfter(total, m) && p in Reports(total, m)
    ensures p < Percent(m, total)
  {
    ReportsMembership(total, m, p);
    var i :| 0 <= i < m && ReportsAfter(total, i) && p == Percent(i, total);
    var k := Interval(total);
    MultiplesApart(i, m, k);
    IntervalBound(total);
    assert i * 100 + total <= m * 100 by {
      assert m * 100 >= (i + k) * 100 == i * 100 + k * 100;
    }
    DivGap(i * 100, m * 100, total);
  }

  lemma {:induction false} ReportsIncreasing(total: nat, m: nat)
    requires m <= total
    ensures StrictlyIncreasing(Reports(total, m))
  {
    if m > 0 {
      ReportsIncreasing(total, m - 1);
      var before := Reports(total, m - 1);
      if ReportsAfter(total, m - 1) {
        var now := Percent(m - 1, total);
        var after := before + [now];
        forall a, b | 0 <= a < b < |after| ensures after[a] < after[b] {
          if b == |before| {
            LaterReportIsHigher(total, m - 1, before[a]);
          }
        }
      }
    }
  }

  /** The reported percentages strictly increase: progress never goes backwards. */
  lemma ScheduleIncreasing(total: nat)
    ensures StrictlyIncreasing(Schedule(total))
  {
    ReportsIncreasing(total, total);
  }

  // ---- Properties of the callback log ----

  /** No percentage report reads like the completion message. */
  lemma ProgressIsNotCompletion(p: nat)
    ensures ProgressMessage(p) != CompletionMessage
  {
    assert ProgressMessage(p)[0] != CompletionMessage[0];
  }

  /** Different percentages give different messages. */
  lemma ProgressMessageInjective(p: nat, q: nat)
    requires ProgressMessage(p) == ProgressMessage(q)
    ensures p == q
  {
    var prefix := "🔄 Progress: ";
    var x, y := NatToString(p), NatToString(q);
    assert |x| == |y|;
    assert x == ProgressMessage(p)[|prefix|..|prefix| + |x|];
    assert y == ProgressMessage(q)[|prefix|..|prefix| + |y|];
    DigitsValueOfNatToString(p);
    DigitsValueOfNatToString(q);
  }

  lemma {:induction false} ProgressMessagesExcludeCompletion(ps: seq<nat>)
    ensures CompletionMessage !in ProgressMessages(ps)
  {
    if |ps| > 0 {
      ProgressMessagesExcludeCompletion(ps[..|ps| - 1]);
      ProgressIsNotCompletion(ps[|ps| - 1]);
    }
  }

  /**
   * The callback receives at most six messages; the completion message comes
   * exactly once, as the last one.
   */
  lemma LogEndsWithCompletion(total: nat)
    ensures var log := ProgressMessages(Schedule(total)) + [CompletionMessage];
            |log| <= 6 && log[|log| - 1] == CompletionMessage &&
            forall j :: 0 <= j < |log| - 1 ==> log[j] != CompletionMessage
  {
    ScheduleCount(total);
    var log := ProgressMessages(Schedule(total)) + [CompletionMessage];
    ProgressMessagesExcludeCompletion(Schedule(total));
    forall j | 0 <= j < |log| - 1 ensures log[j] != CompletionMessage {
      assert log[j] == ProgressMessages(Schedule(total))[j];
    }
  }

  // ---- Properties of the translated text ----

  /**
   * The translator is called once on each translatable line and on nothing
   * else, in line order: the call indices are exactly the translatable lines
   * and strictly increase, so no line is translated twice.
   */
  lemma {:induction false} CallsExactlyTranslatable(lines: seq<string>)
    ensures StrictlyIncreasing(Calls(lines))
    ensures forall i: nat :: i in Calls(lines) <==> i < |lines| && Classify(lines[i]) == Translatable
  {
    if |lines| > 0 {
      var n := |lines| - 1;
      var pre := lines[..n];
      CallsExactlyTranslatable(pre);
      forall i: nat | i < n ensures pre[i] == lines[i] { }
      var c := Calls(pre);
      forall i: nat | i in c ensures i < n { }
      var all := Calls(lines);
      assert pre == lines[..|lines| - 1];
      assert all == c + (if Classify(lines[n]) == Translatable then [n] else []);
      forall a, b | 0 <= a < b < |all| ensures all[a] < all[b] {
        if b >= |c| {
          assert all[a] == c[a] && c[a] in c;
        }
      }
    }
  }

  /** Each output line is the translator's answer for a called line and the line itself otherwise. */
  lemma OutputFollowsCalls(lines: seq<string>, lang: string, translate: (string, string) -> string)
    ensures var out := TranslatedLines(lines, lang, translate);
            |out| == |lines| &&
            forall i: nat :: i < |lines| ==>
              out[i] == if i in Calls(lines) then translate(lines[i], lang) else lines[i]
  {
    CallsExactlyTranslatable(lines);
  }

  /** With a translator that gives its input back, the output is the input lines rejoined. */
  lemma IdentityTranslatorCopies(content: string, lang: string, translate: (string, string) -> string)
    requires forall t :: translate(t, lang) == t
    ensures TranslatedText(content, lang, translate) == Join(SplitLines(content), "\n")
  {
    var lines := SplitLines(content);
    assert TranslatedLines(lines, lang, translate) == lines;
  }

  /** When the translation service always fails, the file comes back unchanged line by line. */
  lemma OfflinePipelineCopies(content: string, lang: string, fetch: (string, string) -> TranslationClient.Reply)
    requires forall t :: fetch(t, lang).TransportFailure?
    ensures TranslatedText(content, lang, (t, l) => TranslationClient.GoogleTranslate(t, l, fetch)) ==
            Join(SplitLines(content), "\n")
  {
    TranslationClient.OfflineClientIsIdentity(fetch, lang);
    IdentityTranslatorCopies(content, lang, (t, l) => TranslationClient.GoogleTranslate(t, l, fetch));
  }

  /**
   * Splitting the output into lines again gives back the output lines, except
   * that a final empty output line is lost.
   */
  lemma OutputLines(content: string, lang: string, translate: (string, string) -> string)
    requires forall t :: '\n' !in translate(t, lang)
    ensures var r := TranslatedLines(SplitLines(content), lang, translate);
            SplitLines(TranslatedText(content, lang, translate)) ==
            if |r| > 0 && r[|r| - 1] == "" then r[..|r| - 1] else r
  {
    var lines := SplitLines(content);
    var result := TranslatedLines(lines, lang, translate);
    forall k | 0 <= k < |result| ensures '\n' !in result[k] { }
    JoinSplitLines(result);
  }

  /**
   * With a translator that never answers with an empty text, the output has
   * one line per input line, except that a file whose last line is empty
   * comes back one line shorter.
   */
  lemma OutputLineCount(content: string, lang: string, translate: (string, string) -> string)
    requires forall t :: '\n' !in translate(t, lang) && translate(t, lang) != ""
    ensures var lines := SplitLines(content);
            var out := SplitLines(TranslatedText(content, lang, translate));
            |out| == if |lines| > 0 && lines[|lines| - 1] == "" then |lines| - 1 else |lines|
  {
    var lines := SplitLines(content);
    var result := TranslatedLines(lines, lang, translate);
    OutputLines(content, lang, translate);
    if |lines| > 0 {
      assert result[|lines| - 1] == "" <==> lines[|lines| - 1] == "";
    }
  }

  /** The cue of a short subtitle file: cue number, timing and blank line kept, dialogue translated. */
  lemma CueTranslation(index: string, timing: string, text: string, blank: string, translate: (string, string) -> string)
    requires index == "1" && timing == "00:00:01,000 --> 00:00:02,000" && text == "Hello world" && blank == ""
    ensures TranslatedLines([index, timing, text, blank], "es", translate) ==
              [index, timing, translate(text, "es"), blank]
  {
    CueLines(index, timing, text, blank, "5");
  }
}
