/**
 * The keyword incident classifier: a transcript is lower-cased and tested against four
 * keyword groups in a fixed order. Every group that matches raises the severity to at least
 * its floor and overwrites the description, so the severity is the maximum floor matched and
 * the description is that of the LAST group matched. No match means no incident.
 */
module IncidentAnalysis {
  import opened Wrappers

  /** Coordinates attached to an incident; informational only. */
  datatype Location = Location(latitude: real, longitude: real)

  /** The incident record the classifier returns. */
  datatype Incident = Incident(description: string, severity: int, location: Location)

  /** One keyword group: any of `keywords` fires it; it contributes `floor` and `report`. */
  datatype Rule = Rule(keywords: seq<string>, floor: int, report: string)

  /** Every incident carries this placeholder location, whatever the transcript says. */
  const IncidentLocation: Location := Location(43.0731, -89.4012)

  /** The keyword groups in the order the classifier tests them. */
  const Rules: seq<Rule> := [
    Rule(["accident"], 7, "Accident reported"),
    Rule(["congestion", "traffic jam"], 5, "Congestion reported"),
    Rule(["slow"], 4, "Slow traffic reported"),
    Rule(["delay"], 3, "Traffic delay reported")
  ]

  /** The five keywords of all groups together. */
  const Keywords: seq<string> := ["accident", "congestion", "traffic jam", "slow", "delay"]

  // ---------------------------------------------------------------------------------------
  // Text primitives: str.lower() and the `in` operator on strings
  // ---------------------------------------------------------------------------------------

  /** Lower-casing of one character, for the ASCII letters. */
  function LowerChar(c: char): char
  {
    if 'A' <= c <= 'Z' then (c as int + 32) as char else c
  }

  /** `s.lower()`: the transcript lower-cased position by position. */
  function Lower(s: string): string
  {
    seq(|s|, i requires 0 <= i < |s| => LowerChar(s[i]))
  }

  /** `pattern` occurs in `text` starting at index `i`. */
  predicate OccursAt(text: string, pattern: string, i: int)
  {
    0 <= i && i + |pattern| <= |text| && text[i..i + |pattern|] == pattern
  }

  /** `pattern in text`: `pattern` occurs as a contiguous substring of `text`. */
  predicate Contains(text: string, pattern: string)
  {
    exists i | 0 <= i <= |text| - |pattern| :: OccursAt(text, pattern, i)
  }

  /** Surrounding text with more text keeps every substring it had. */
  lemma ContainsExtended(text: string, pattern: string, before: string, after: string)
    requires Contains(text, pattern)
    ensures Contains(before + text + after, pattern)
  {
    var i :| 0 <= i <= |text| - |pattern| && OccursAt(text, pattern, i);
    var t := before + text + after;
    assert t[|before| + i..|before| + i + |pattern|] == text[i..i + |pattern|];
    assert OccursAt(t, pattern, |before| + i);
  }

  /** Lower-casing distributes over concatenation. */
  lemma LowerAppend(a: string, b: string)
    ensures Lower(a + b) == Lower(a) + Lower(b)
  {
  }

  // ---------------------------------------------------------------------------------------
  // The classifier
  // ---------------------------------------------------------------------------------------

  /** Python's two-argument `max` on integers. */
  function Max(a: int, b: int): int
  {
    if a >= b then a else b
  }

  /** Some keyword of the list occurs in `text`. */
  predicate AnyContains(text: string, keywords: seq<string>)
  {
    exists k :: k in keywords && Contains(text, k)
  }

  /** The condition of one `if` of the classifier holds for `text`. */
  predicate Fires(rule: Rule, text: string)
  {
    AnyContains(text, rule.keywords)
  }

  /**
   * The straight-line sequence of `if`s run in order: a rule that fires raises the running
   * severity to at least its floor and replaces the running description with its report.
   */
  function Scan(rules: seq<Rule>, text: string, severity: int, description: string): (int, string)
    decreases |rules|
  {
    if rules == [] then (severity, description)
    else if Fires(rules[0], text) then
      Scan(rules[1..], text, Max(severity, rules[0].floor), rules[0].report)
    else
      Scan(rules[1..], text, severity, description)
  }

  /** The severity Scan ends with is the maximum of the start value and the floors that fired. */
  lemma {:induction false} ScanSeverityIsMax(rules: seq<Rule>, text: string, severity: int, description: string)
    ensures Scan(rules, text, severity, description).0 >= severity
    ensures forall i :: 0 <= i < |rules| && Fires(rules[i], text) ==>
              Scan(rules, text, severity, description).0 >= rules[i].floor
    ensures Scan(rules, text, severity, description).0 == severity ||
            exists i :: 0 <= i < |rules| && Fires(rules[i], text) &&
                        Scan(rules, text, severity, description).0 == rules[i].floor
    decreases |rules|
  {
    if rules != [] {
      var rest := rules[1..];
      var fired := Fires(rules[0], text);
      var s' := if fired then Max(severity, rules[0].floor) else severity;
      var d' := if fired then rules[0].report else description;
      ScanSeverityIsMax(rest, text, s', d');
      var r := Scan(rules, text, severity, description).0;
      assert r == Scan(rest, text, s', d').0;
      forall i | 0 <= i < |rules| && Fires(rules[i], text)
        ensures r >= rules[i].floor
      {
        if i > 0 {
          assert rules[i] == rest[i - 1];
        }
      }
      if r != severity {
        if r == s' {
          assert fired && r == rules[0].floor;
        } else {
          var j :| 0 <= j < |rest| && Fires(rest[j], text) && r == rest[j].floor;
          assert rules[j + 1] == rest[j];
        }
      }
    }
  }

  /** The description Scan ends with is the report of the last rule that fired, if any fired. */
  lemma {:induction false} ScanDescriptionIsLast(rules: seq<Rule>, text: string, severity: int, description: string)
    ensures (forall i :: 0 <= i < |rules| ==> !Fires(rules[i], text)) ==>
              Scan(rules, text, severity, description) == (severity, description)
    ensures forall i :: 0 <= i < |rules| && Fires(rules[i], text) &&
                        (forall j :: i < j < |rules| ==> !Fires(rules[j], text)) ==>
              Scan(rules, text, severity, description).1 == rules[i].report
    decreases |rules|
  {
    if rules != [] {
      var rest := rules[1..];
      var fired := Fires(rules[0], text);
      var s' := if fired then Max(severity, rules[0].floor) else severity;
      var d' := if fired then rules[0].report else description;
      ScanDescriptionIsLast(rest, text, s', d');
      var r := Scan(rules, text, severity, description);
      assert r == Scan(rest, text, s', d');
      if forall i :: 0 <= i < |rules| ==> !Fires(rules[i], text) {
        assert !fired;
        forall i | 0 <= i < |rest| ensures !Fires(rest[i], text) {
          assert rest[i] == rules[i + 1];
        }
      }
      forall i | 0 <= i < |rules| && Fires(rules[i], text) &&
                 (forall j :: i < j < |rules| ==> !Fires(rules[j], text))
        ensures r.1 == rules[i].report
      {
        if i == 0 {
          forall j | 0 <= j < |rest| ensures !Fires(rest[j], text) {
            assert rest[j] == rules[j + 1];
          }
        } else {
          assert rest[i - 1] == rules[i];
          forall j | i - 1 < j < |rest| ensures !Fires(rest[j], text) {
            assert rest[j] == rules[j + 1];
          }
        }
      }
    }
  }

  /**
   * `analyze_transcript`: lower-case the transcript, run the four keyword tests from severity 0
   * and an empty description, and report an incident exactly when the severity became positive.
   */
  function AnalyzeTranscript(transcript: string): (r: Option<Incident>)
    ensures r.None? <==> !AnyContains(Lower(transcript), Keywords)
    ensures r.Some? ==> r.value.severity in {3, 4, 5, 7} && 0 < r.value.severity <= 10
    ensures r.Some? ==> r.value.location == IncidentLocation
  {
    var text := Lower(transcript);
    ScanSeverityIsMax(Rules, text, 0, "");
    KeywordsAreTheRules(text);
    var (severity, description) := Scan(Rules, text, 0, "");
    if severity > 0 then Some(Incident(description, severity, IncidentLocation)) else None
  }

  /** A keyword of the combined list occurs exactly when some rule fires. */
  lemma KeywordsAreTheRules(text: string)
    ensures AnyContains(text, Keywords) <==> exists i :: 0 <= i < |Rules| && Fires(Rules[i], text)
  {
    if AnyContains(text, Keywords) {
      var k :| k in Keywords && Contains(text, k);
      if k == "accident" { assert Fires(Rules[0], text); }
      else if k == "congestion" || k == "traffic jam" { assert Fires(Rules[1], text); }
      else if k == "slow" { assert Fires(Rules[2], text); }
      else { assert Fires(Rules[3], text); }
    }
  }

  /** Which rule fires, spelled out per keyword. */
  lemma RulesFire(text: string)
    ensures Fires(Rules[0], text) <==> Contains(text, "accident")
    ensures Fires(Rules[1], text) <==> Contains(text, "congestion") || Contains(text, "traffic jam")
    ensures Fires(Rules[2], text) <==> Contains(text, "slow")
    ensures Fires(Rules[3], text) <==> Contains(text, "delay")
  {
    assert Rules[0].keywords == ["accident"];
    assert Rules[1].keywords == ["congestion", "traffic jam"];
    assert Rules[2].keywords == ["slow"];
    assert Rules[3].keywords == ["delay"];
  }

  // ---------------------------------------------------------------------------------------
  // Properties of analyze_transcript
  // ---------------------------------------------------------------------------------------

  /**
   * The severity is the maximum floor among the groups that matched: at least every matched
   * floor and equal to one of them; spelled out, accident 7, congestion or traffic jam 5,
   * slow 4, delay 3.
   */
  lemma SeverityIsMaxFloor(transcript: string)
    requires AnalyzeTranscript(transcript).Some?
    ensures var text, severity := Lower(transcript), AnalyzeTranscript(transcript).value.severity;
      (forall i :: 0 <= i < |Rules| && Fires(Rules[i], text) ==> severity >= Rules[i].floor) &&
      (exists i :: 0 <= i < |Rules| && Fires(Rules[i], text) && severity == Rules[i].floor)
    ensures var text, severity := Lower(transcript), AnalyzeTranscript(transcript).value.severity;
      severity == if Contains(text, "accident") then 7
                  else if Contains(text, "congestion") || Contains(text, "traffic jam") then 5
                  else if Contains(text, "slow") then 4
                  else 3
  {
    var text := Lower(transcript);
    ScanSeverityIsMax(Rules, text, 0, "");
    RulesFire(text);
  }

  /**
   * The description is that of the last group matched in the order accident, congestion,
   * slow, delay, which need not be the group with the highest floor.
   */
  lemma DescriptionIsLastMatch(transcript: string)
    requires AnalyzeTranscript(transcript).Some?
    ensures var text, description := Lower(transcript), AnalyzeTranscript(transcript).value.description;
      exists i :: 0 <= i < |Rules| && Fires(Rules[i], text) && description == Rules[i].report &&
                  forall j :: i < j < |Rules| ==> !Fires(Rules[j], text)
    ensures var text, description := Lower(transcript), AnalyzeTranscript(transcript).value.description;
      description == if Contains(text, "delay") then "Traffic delay reported"
                     else if Contains(text, "slow") then "Slow traffic reported"
                     else if Contains(text, "congestion") || Contains(text, "traffic jam") then "Congestion reported"
                     else "Accident reported"
  {
    var text := Lower(transcript);
    ScanDescriptionIsLast(Rules, text, 0, "");
    RulesFire(text);
    var last := if Fires(Rules[3], text) then 3 else if Fires(Rules[2], text) then 2
                else if Fires(Rules[1], text) then 1 else 0;
    assert Fires(Rules[last], text) && forall j :: last < j < |Rules| ==> !Fires(Rules[j], text);
  }

  /** Transcripts equal up to ASCII letter case. */
  ghost predicate SameUpToCase(s: string, t: string)
  {
    |s| == |t| && forall i :: 0 <= i < |s| ==> LowerChar(s[i]) == LowerChar(t[i])
  }

  /** Classification ignores letter case. */
  lemma CaseInsensitive(s: string, t: string)
    requires SameUpToCase(s, t)
    ensures AnalyzeTranscript(s) == AnalyzeTranscript(t)
  {
    assert Lower(s) == Lower(t);
  }

  /** Adding text before or after a transcript never loses an incident or lowers its severity. */
  lemma ExtendingNeverLowersSeverity(transcript: string, before: string, after: string)
    requires AnalyzeTranscript(transcript).Some?
    ensures AnalyzeTranscript(before + transcript + after).Some?
    ensures AnalyzeTranscript(before + transcript + after).value.severity >=
            AnalyzeTranscript(transcript).value.severity
  {
    var text := Lower(transcript);
    var text' := Lower(before + transcript + after);
    LowerAppend(before, transcript);
    LowerAppend(before + transcript, after);
    assert text' == Lower(before) + text + Lower(after);
    ScanSeverityIsMax(Rules, text, 0, "");
    ScanSeverityIsMax(Rules, text', 0, "");
    var i :| 0 <= i < |Rules| && Fires(Rules[i], text) && Scan(Rules, text, 0, "").0 == Rules[i].floor;
    var k :| k in Rules[i].keywords && Contains(text, k);
    ContainsExtended(text, k, Lower(before), Lower(after));
    assert Fires(Rules[i], text');
  }

  /** The empty transcript (what a failed transcription yields) reports no incident. */
  lemma EmptyTranscriptIsNoIncident()
    ensures AnalyzeTranscript("") == None
  {
    assert !AnyContains(Lower(""), Keywords);
  }

  /** A report naming an accident and slow traffic: severity of the accident, description of slow traffic. */
  lemma MixedReportExample()
    ensures AnalyzeTranscript("There is a major " + "accident causing " + "slow traffic") ==
            Some(Incident("Slow traffic reported", 7, IncidentLocation))
  {
    var transcript := "There is a major " + "accident causing " + "slow traffic";
    var text := MixedText();
    MixedTextLower();
    MixedTextKeywords();
    DescriptionIsLastMatch(transcript);
    SeverityIsMaxFloor(transcript);
  }

  /** The lower-cased mixed report, cut where the containment arguments need it. */
  function MixedText(): string
  {
    "t" + "here is a ma" + "jor " + "accident causing " + "slow " + "traffic"
  }

  /** Lower-casing the mixed report only turns its leading `T` into `t`. */
  lemma MixedTextLower()
    ensures Lower("There is a major " + "accident causing " + "slow traffic") == MixedText()
  {
    var a, b, c, d, e := "here is a ma", "jor ", "accident causing ", "slow ", "traffic";
    assert "There is a major " + "accident causing " + "slow traffic" == "T" + a + b + c + d + e by {
      assert "There is a major " == "T" + a + b;
      assert "slow traffic" == d + e;
    }
    LowerOfNoUpper(a);
    LowerOfNoUpper(b);
    LowerOfNoUpper(c);
    LowerOfNoUpper(d);
    LowerOfNoUpper(e);
    assert Lower("T") == "t";
    LowerAppend("T", a);
    LowerAppend("T" + a, b);
    LowerAppend("T" + a + b, c);
    LowerAppend("T" + a + b + c, d);
    LowerAppend("T" + a + b + c + d, e);
  }

  /** The mixed report names an accident and slow traffic, and no congestion, jam or delay. */
  lemma MixedTextKeywords()
    ensures Contains(MixedText(), "accident") && Contains(MixedText(), "slow")
    ensures !Contains(MixedText(), "congestion") && !Contains(MixedText(), "traffic jam")
    ensures !Contains(MixedText(), "delay")
  {
    var a, b, c, d, e := "here is a ma", "jor ", "accident causing ", "slow ", "traffic";
    var text := MixedText();
    assert Contains(text, "accident") by {
      assert OccursAt(c, "accident", 0);
      ContainsExtended(c, "accident", "t" + a + b, d + e);
      assert text == "t" + a + b + c + (d + e);
    }
    assert Contains(text, "slow") by {
      assert OccursAt(d, "slow", 0);
      ContainsExtended(d, "slow", "t" + a + b + c, e);
    }
    assert !Contains(text, "delay") by {
      NotContainsWithoutChar(text, "delay", 4);
    }
    assert !Contains(text, "congestion") by {
      PairAbsentFromMixedText('c', 'o');
      NotContainsWithoutPair(text, "congestion", 0);
    }
    assert !Contains(text, "traffic jam") by {
      PairAbsentFromMixedText('j', 'a');
      assert "traffic jam"[8] == 'j' && "traffic jam"[9] == 'a';
      NotContainsWithoutPair(text, "traffic jam", 8);
    }
  }

  /** Neither "co" nor "ja" occurs in the mixed report: no piece holds both letters and no seam joins them. */
  lemma PairAbsentFromMixedText(x: char, y: char)
    requires [x, y] == "co" || [x, y] == "ja"
    ensures !Contains(MixedText(), [x, y])
  {
    var a, b, c, d, e := "here is a ma", "jor ", "accident causing ", "slow ", "traffic";
    assert !Contains("t" + a, [x, y]) by { PairNotInAppend("t", a, x, y); }
    assert !Contains("t" + a + b, [x, y]) by { PairNotInAppend("t" + a, b, x, y); }
    assert !Contains("t" + a + b + c, [x, y]) by { PairNotInAppend("t" + a + b, c, x, y); }
    assert !Contains("t" + a + b + c + d, [x, y]) by { PairNotInAppend("t" + a + b + c, d, x, y); }
    assert !Contains("t" + a + b + c + d + e, [x, y]) by { PairNotInAppend("t" + a + b + c + d, e, x, y); }
  }

  /** A report without any keyword yields no incident. */
  lemma ClearReportExample()
    ensures AnalyzeTranscript("all clear, normal traffic") == None
  {
    ClearTextKeywords();
    assert !AnyContains(Lower("all clear, normal traffic"), Keywords);
  }

  /** No keyword occurs in the lower-cased all-clear report. */
  lemma ClearTextKeywords()
    ensures var text := Lower("all clear, normal traffic");
      !Contains(text, "accident") && !Contains(text, "congestion") && !Contains(text, "traffic jam") &&
      !Contains(text, "slow") && !Contains(text, "delay")
  {
    var text := "all clear, normal traffic";
    assert Lower(text) == text by { LowerOfNoUpper(text); }
    ClearTextLetters();
    NotContainsWithoutChar(text, "accident", 4);
    NotContainsWithoutChar(text, "congestion", 3);
    NotContainsWithoutChar(text, "traffic jam", 8);
    NotContainsWithoutChar(text, "slow", 3);
    NotContainsWithoutChar(text, "delay", 0);
  }

  /** The all-clear report has no `d`, `g`, `j` or `w`. */
  lemma ClearTextLetters()
    ensures var text := "all clear, normal traffic";
      'd' !in text && 'g' !in text && 'j' !in text && 'w' !in text
  {
  }

  // ---------------------------------------------------------------------------------------
  // Helpers for deciding containment on concrete text
  // ---------------------------------------------------------------------------------------

  /** Text without upper-case ASCII letters is its own lower-casing. */
  lemma LowerOfNoUpper(s: string)
    requires forall c :: c in s ==> !('A' <= c <= 'Z')
    ensures Lower(s) == s
  {
    assert forall i :: 0 <= i < |s| ==> s[i] in s;
  }

  /** A text containing a pattern contains every piece of the pattern. */
  lemma ContainsPiece(text: string, pattern: string, i: int, j: int)
    requires 0 <= i <= j <= |pattern|
    ensures Contains(text, pattern) ==> Contains(text, pattern[i..j])
  {
    if Contains(text, pattern) {
      var k :| 0 <= k <= |text| - |pattern| && OccursAt(text, pattern, k);
      var piece := pattern[i..j];
      assert text[k..k + |pattern|] == pattern;
      assert |piece| == j - i;
      assert text[k + i..k + j] == piece by {
        forall m | 0 <= m < j - i ensures text[k + i..k + j][m] == piece[m] {
          assert piece[m] == pattern[i + m] == text[k..k + |pattern|][i + m];
        }
      }
      assert OccursAt(text, piece, k + i);
    }
  }

  /** A one-letter pattern is contained exactly when the letter is. */
  lemma ContainsLetter(text: string, c: char)
    ensures Contains(text, [c]) <==> c in text
  {
    forall k | 0 <= k < |text| ensures OccursAt(text, [c], k) <==> text[k] == c {
      assert text[k..k + 1] == [text[k]];
    }
  }

  /** A pattern with a letter the text lacks does not occur in it. */
  lemma NotContainsWithoutChar(text: string, pattern: string, j: int)
    requires 0 <= j < |pattern| && pattern[j] !in text
    ensures !Contains(text, pattern)
  {
    ContainsPiece(text, pattern, j, j + 1);
    assert pattern[j..j + 1] == [pattern[j]];
    ContainsLetter(text, pattern[j]);
  }

  /** A pattern with two adjacent letters the text lacks as a pair does not occur in it. */
  lemma NotContainsWithoutPair(text: string, pattern: string, j: int)
    requires 0 <= j < |pattern| - 1 && !Contains(text, [pattern[j], pattern[j + 1]])
    ensures !Contains(text, pattern)
  {
    ContainsPiece(text, pattern, j, j + 2);
    assert pattern[j..j + 2] == [pattern[j], pattern[j + 1]];
  }

  /**
   * The pair `x y` occurs in neither part nor across the seam, so not in the whole; a part that
   * lacks `x` or `y` lacks the pair.
   */
  lemma PairNotInAppend(a: string, b: string, x: char, y: char)
    requires !Contains(a, [x, y]) || x !in a || y !in a
    requires x !in b || y !in b
    requires a == [] || b == [] || a[|a| - 1] != x || b[0] != y
    ensures !Contains(a + b, [x, y])
  {
    var p, ab := [x, y], a + b;
    forall k | 0 <= k && k + 2 <= |ab| ensures !OccursAt(ab, p, k) {
      assert OccursAt(ab, p, k) <==> ab[k] == x && ab[k + 1] == y by {
        assert ab[k..k + 2] == [ab[k], ab[k + 1]];
      }
      if k + 1 < |a| {
        assert a[k] in a && a[k + 1] in a;
        assert a[k..k + 2] == [ab[k], ab[k + 1]];
        assert OccursAt(a, p, k) <==> ab[k] == x && ab[k + 1] == y;
      } else if k >= |a| {
        assert b[k - |a|] in b && b[k + 1 - |a|] in b;
      }
    }
  }
}
