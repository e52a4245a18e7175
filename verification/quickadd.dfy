/**
 * The quick-add box: one line of text becomes a task. A "by YYYY-MM-DD" phrase sets the date,
 * "priority:X" and "category:X" tags set those fields, and what is left is the title.
 */
module QuickAdd {
  import opened Text
  import opened Dates
  import opened Records
  import opened Tables

  /** \b in front of a word character at index i: nothing, or a non-word character, before it. */
  predicate WordStart(s: string, i: nat)
    requires i <= |s|
  {
    i == 0 || !IsWordChar(s[i - 1])
  }

  /** \d{4}-\d{2}-\d{2} */
  predicate DateShape(d: string)
  {
    && |d| == 10
    && IsDigit(d[0]) && IsDigit(d[1]) && IsDigit(d[2]) && IsDigit(d[3]) && d[4] == '-'
    && IsDigit(d[5]) && IsDigit(d[6]) && d[7] == '-' && IsDigit(d[8]) && IsDigit(d[9])
  }

  /** \bby\s(\d{4}-\d{2}-\d{2})\b matches at index i (case-sensitively). */
  predicate DatePhraseAt(s: string, i: nat)
  {
    && i + 13 <= |s|
    && WordStart(s, i)
    && s[i] == 'b' && s[i + 1] == 'y' && IsSpace(s[i + 2])
    && DateShape(s[i + 3..i + 13])
    && (i + 13 == |s| || !IsWordChar(s[i + 13]))
  }

  /** The phrase matches at index i and at no index before it: the match re.search reports. */
  predicate FirstDatePhraseAt(s: string, i: nat)
  {
    DatePhraseAt(s, i) && forall j :: 0 <= j < i ==> !DatePhraseAt(s, j)
  }

  /** The leftmost index from k on where the "by" phrase matches, as re.search scans. */
  function FirstDatePhraseFrom(s: string, k: nat): (r: Option<nat>)
    ensures r.Some? ==> k <= r.value < |s| && DatePhraseAt(s, r.value)
    ensures r.Some? ==> forall j :: k <= j < r.value ==> !DatePhraseAt(s, j)
    ensures r.None? ==> forall j :: k <= j < |s| ==> !DatePhraseAt(s, j)
    decreases |s| - k
  {
    if k >= |s| then None
    else if DatePhraseAt(s, k) then Some(k)
    else FirstDatePhraseFrom(s, k + 1)
  }

  /** The search finds exactly the leftmost match. */
  lemma FirstDatePhraseFromFinds(s: string, i: nat)
    requires i < |s| && FirstDatePhraseAt(s, i)
    ensures FirstDatePhraseFrom(s, 0) == Some(i)
  {
    var r := FirstDatePhraseFrom(s, 0);
    assert r.Some?;
  }

  /** The date the search for the "by" phrase captures, if any. It is not checked to be a
      real date. */
  function DatePhrase(s: string): (r: Option<string>)
    ensures r.Some? ==> DateShape(r.value)
    ensures r.Some? <==> exists i :: 0 <= i < |s| && DatePhraseAt(s, i)
    ensures r.Some? ==> exists i: nat :: FirstDatePhraseAt(s, i) && r.value == s[i + 3..i + 13]
  {
    match FirstDatePhraseFrom(s, 0)
    case Some(i) =>
      assert FirstDatePhraseAt(s, i);
      Some(s[i + 3..i + 13])
    case None => None
  }

  /** The longest run of word characters starting at index j: what a greedy \w+ consumes. */
  function WordRun(s: string, j: nat): (r: string)
    requires j <= |s|
    ensures j + |r| <= |s| && r == s[j..j + |r|]
    ensures forall c :: c in r ==> IsWordChar(c)
    ensures j + |r| == |s| || !IsWordChar(s[j + |r|])
    decreases |s| - j
  {
    if j < |s| && IsWordChar(s[j]) then
      var rest := WordRun(s, j + 1);
      assert [s[j]] + rest == s[j..j + 1 + |rest|];
      [s[j]] + rest
    else []
  }

  /** `tag` (lower case, ending in ':') matched case-insensitively at index i and followed by
      a word character. */
  predicate TagHere(s: string, tag: string, i: nat)
  {
    i + |tag| < |s| && Lower(s[i..i + |tag|]) == tag && IsWordChar(s[i + |tag|])
  }

  /** \btag(\w+)\b, case-insensitive, matches at index i. The closing \b always holds after
      a greedy \w+. */
  predicate TagAt(s: string, tag: string, i: nat)
  {
    i <= |s| && WordStart(s, i) && TagHere(s, tag, i)
  }

  /** The tag matches at index i and at no index before it. */
  predicate FirstTagAt(s: string, tag: string, i: nat)
  {
    TagAt(s, tag, i) && forall j :: 0 <= j < i ==> !TagAt(s, tag, j)
  }

  /** The leftmost index from k on where the tag matches, as re.search scans. */
  function FirstTagFrom(s: string, tag: string, k: nat): (r: Option<nat>)
    ensures r.Some? ==> k <= r.value < |s| && TagAt(s, tag, r.value)
    ensures r.Some? ==> forall j :: k <= j < r.value ==> !TagAt(s, tag, j)
    ensures r.None? ==> forall j :: k <= j < |s| ==> !TagAt(s, tag, j)
    decreases |s| - k
  {
    if k >= |s| then None
    else if TagAt(s, tag, k) then Some(k)
    else FirstTagFrom(s, tag, k + 1)
  }

  /** The search finds exactly the leftmost match. */
  lemma FirstTagFromFinds(s: string, tag: string, i: nat)
    requires i < |s| && FirstTagAt(s, tag, i)
    ensures FirstTagFrom(s, tag, 0) == Some(i)
  {
    var r := FirstTagFrom(s, tag, 0);
    assert r.Some?;
  }

  /** The value the leftmost tag carries: all of the word characters after it. */
  function TagValue(s: string, tag: string): (r: Option<string>)
    ensures r.Some? ==> r.value != [] && forall c :: c in r.value ==> IsWordChar(c)
    ensures r.None? <==> forall i :: 0 <= i < |s| ==> !TagAt(s, tag, i)
    ensures r.Some? ==> exists i: nat :: FirstTagAt(s, tag, i) && r.value == WordRun(s, i + |tag|)
  {
    match FirstTagFrom(s, tag, 0)
    case Some(i) =>
      var v := WordRun(s, i + |tag|);
      assert FirstTagAt(s, tag, i) && v != [] by {
        assert s[i + |tag|] in v;
      }
      Some(v)
    case None => None
  }

  /** re.sub(tag + r'\w+', '', s, flags=re.IGNORECASE): one left-to-right pass deleting each
      tag with the word characters after it (no \b in front here). */
  function RemoveTag(s: string, tag: string): (r: string)
    requires tag != []
    decreases |s|
  {
    if s == [] then []
    else if TagHere(s, tag, 0) then RemoveTag(s[|tag| + |WordRun(s, |tag|)|..], tag)
    else [s[0]] + RemoveTag(s[1..], tag)
  }

  /** The pass only deletes: what is left keeps its characters in order. */
  lemma {:induction false} RemoveTagDeletes(s: string, tag: string)
    requires tag != []
    ensures |RemoveTag(s, tag)| <= |s|
    ensures forall c :: c in RemoveTag(s, tag) ==> c in s
    ensures IsSubsequence(RemoveTag(s, tag), s)
    decreases |s|
  {
    if s != [] {
      var n := if TagHere(s, tag, 0) then |tag| + |WordRun(s, |tag|)| else 1;
      var t := s[n..];
      RemoveTagDeletes(t, tag);
      var r := RemoveTag(s, tag);
      assert r == RemoveTag(t, tag) || r == [s[0]] + RemoveTag(t, tag);
      if TagHere(s, tag, 0) {
        SubsequenceOfSuffix(r, s, n);
      } else {
        assert r[0] == s[0] && r[1..] == RemoveTag(t, tag) && t == s[1..];
      }
      forall c | c in r ensures c in s {
        if c in RemoveTag(t, tag) {
          var k :| 0 <= k < |t| && t[k] == c;
          assert s[n + k] == c;
        }
      }
    }
  }

  /** Text holding no tag is left as it is. */
  lemma {:induction false} RemoveTagNoTag(s: string, tag: string)
    requires tag != []
    requires forall i :: 0 <= i < |s| ==> !TagHere(s, tag, i)
    ensures RemoveTag(s, tag) == s
    decreases |s|
  {
    if s != [] {
      forall i | 0 <= i < |s[1..]| ensures !TagHere(s[1..], tag, i) {
        assert !TagHere(s, tag, i + 1);
        if i + |tag| < |s[1..]| {
          assert s[1..][i..i + |tag|] == s[i + 1..i + 1 + |tag|];
        }
      }
      RemoveTagNoTag(s[1..], tag);
      assert s == [s[0]] + s[1..];
    }
  }

  const PriorityTag := "priority:"
  const CategoryTag := "category:"

  /** The title the quick-add text leaves: cut before the first "by " (wherever it occurs,
      also inside a word), then the priority and category tags deleted, then stripped. */
  function QuickTitle(s: string): string
  {
    var cut := if Contains(s, "by ") then Strip(BeforeFirst(s, "by ")) else s;
    Strip(RemoveTag(RemoveTag(cut, PriorityTag), CategoryTag))
  }

  /** Nothing from the first "by " on reaches the title: the title of the text is the title
      of what stands before that "by ", stripped. */
  lemma QuickTitleCutsAtBy(s: string)
    requires Contains(s, "by ")
    ensures QuickTitle(s) == QuickTitle(Strip(BeforeFirst(s, "by ")))
  {
    var cut := Strip(BeforeFirst(s, "by "));
    BeforeFirstLacks(s, "by ");
    if Contains(cut, "by ") {
      FoundInStrip(BeforeFirst(s, "by "), "by ");
    }
  }

  /** Text with no "by " and no tag is its own title, stripped. */
  lemma QuickTitlePlain(s: string)
    requires !Contains(s, "by ")
    requires forall i :: 0 <= i < |s| ==> !TagHere(s, PriorityTag, i) && !TagHere(s, CategoryTag, i)
    ensures QuickTitle(s) == Strip(s)
  {
    RemoveTagNoTag(s, PriorityTag);
    RemoveTagNoTag(s, CategoryTag);
  }

  /** quick_add_task: the task added for the text in the box on day `today`, or None when the
      text is blank and nothing is added. */
  function ParseQuickAdd(text: string, today: Date): Option<Task>
    requires Valid(today)
  {
    var s := Strip(text);
    if s == [] then None
    else
      var date := match DatePhrase(s) case Some(d) => d case None => FormatDate(today);
      var priority := match TagValue(s, PriorityTag) case Some(v) => Capitalize(v) case None => "Medium";
      var category := match TagValue(s, CategoryTag) case Some(v) => Capitalize(v) case None => "General";
      Some(TaskData(None, None, QuickTitle(s), "", date, Pending, [], false, priority, category, "", ""))
  }

  /** Blank text adds nothing; any other text adds a pending, non-recurring task with no phase,
      objective, description, resources, estimate or timestamp, and a stripped title. */
  lemma QuickAddDefaults(text: string, today: Date)
    requires Valid(today)
    ensures ParseQuickAdd(text, today).None? <==> Strip(text) == []
    ensures ParseQuickAdd(text, today).Some? ==>
      var t := ParseQuickAdd(text, today).value;
      && t.status == Pending && !t.recurring
      && t.phaseId.None? && t.objectiveId.None?
      && t.description == "" && t.resources == [] && t.estimatedTime == "" && t.completionTimestamp == ""
      && IsStripped(t.title)
  {
    if Strip(text) != [] {
      StripSpec(RemoveTag(RemoveTag(
        if Contains(Strip(text), "by ") then Strip(BeforeFirst(Strip(text), "by ")) else Strip(text),
        PriorityTag), CategoryTag));
    }
  }

  /** Priority and category are the capitalised tag values when the tags are present (a
      capital, then no capitals), Medium and General otherwise. */
  lemma QuickAddTags(text: string, today: Date)
    requires Valid(today) && Strip(text) != []
    ensures var t := ParseQuickAdd(text, today).value;
      && (TagValue(Strip(text), PriorityTag).None? ==> t.priority == "Medium")
      && (TagValue(Strip(text), PriorityTag).Some? ==>
            t.priority == Capitalize(TagValue(Strip(text), PriorityTag).value)
            && t.priority != [] && !('a' <= t.priority[0] <= 'z')
            && forall i :: 1 <= i < |t.priority| ==> !('A' <= t.priority[i] <= 'Z'))
      && (TagValue(Strip(text), CategoryTag).None? ==> t.category == "General")
      && (TagValue(Strip(text), CategoryTag).Some? ==> t.category == Capitalize(TagValue(Strip(text), CategoryTag).value))
  {
    var s := Strip(text);
    match TagValue(s, PriorityTag)
    case Some(v) => CapitalizeIdempotent(v);
    case None =>
  }

  /** The date is the one a "by YYYY-MM-DD" phrase gives, unchecked; without the phrase it is
      today's, which reads back as today. */
  lemma QuickAddDate(text: string, today: Date)
    requires Valid(today) && Strip(text) != []
    ensures var t := ParseQuickAdd(text, today).value;
      && (DatePhrase(Strip(text)).Some? ==> t.date == DatePhrase(Strip(text)).value && DateShape(t.date))
      && (DatePhrase(Strip(text)).None? ==> ParseDate(t.date) == Some(today))
  {
    ParseFormatDate(today);
  }

  lemma TagHereTail(s: string, tag: string, i: nat)
    requires s != []
    ensures TagHere(s[1..], tag, i) <==> TagHere(s, tag, i + 1)
  {
    if i + |tag| < |s[1..]| {
      assert s[1..][i..i + |tag|] == s[i + 1..i + 1 + |tag|];
    }
  }

  /** Text before the first place a tag could start is kept by the deletion pass. */
  lemma {:induction false} RemoveTagKeepsPrefix(p: string, rest: string, tag: string)
    requires tag != []
    requires forall i :: 0 <= i < |p| ==> !TagHere(p + rest, tag, i)
    ensures RemoveTag(p + rest, tag) == p + RemoveTag(rest, tag)
    decreases |p|
  {
    if p != [] {
      var s := p + rest;
      assert !TagHere(s, tag, 0);
      assert s[1..] == p[1..] + rest;
      assert RemoveTag(s, tag) == [p[0]] + RemoveTag(s[1..], tag);
      forall i | 0 <= i < |p[1..]| ensures !TagHere(p[1..] + rest, tag, i) {
        TagHereTail(s, tag, i);
      }
      RemoveTagKeepsPrefix(p[1..], rest, tag);
      AppendAssociates([p[0]], p[1..], RemoveTag(rest, tag));
      assert p == [p[0]] + p[1..];
    } else {
      assert p + rest == rest;
    }
  }

  /** No occurrence of pat starts before index k when its first character is not among the
      first k characters. */
  lemma NoOccurrenceBefore(s: string, pat: string, k: nat)
    requires pat != [] && k <= |s| && pat[0] !in s[..k]
    ensures forall j :: 0 <= j < k ==> !OccursAt(s, pat, j)
  {
  }

  /** The first "by " of "Learn Ruby by 2024-05-01" is the one ending "Ruby". */
  lemma RubyCut()
    ensures Contains("Learn Ruby by 2024-05-01", "by ")
    ensures BeforeFirst("Learn Ruby by 2024-05-01", "by ") == "Learn Ru"
  {
    var s := "Learn Ruby by 2024-05-01";
    assert OccursAt(s, "by ", 8);
    assert s[..8] == "Learn Ru";
    NoOccurrenceBefore(s, "by ", 8);
  }

  /** The title of "Learn Ruby by 2024-05-01" is cut at the "by " inside "Ruby". */
  lemma RubyTitle()
    ensures QuickTitle("Learn Ruby by 2024-05-01") == "Learn Ru"
  {
    RubyCut();
    var cut := "Learn Ru";
    assert IsStripped(cut);
    StripOfStripped(cut);
    RemoveTagNoTag(cut, PriorityTag);
    RemoveTagNoTag(cut, CategoryTag);
  }

  /** The "by" phrase of "Learn Ruby by 2024-05-01" is found after "Ruby", not inside it. */
  lemma RubyDate()
    ensures DatePhrase("Learn Ruby by 2024-05-01") == Some("2024-05-01")
  {
    var s := "Learn Ruby by 2024-05-01";
    assert s[14..24] == "2024-05-01";
    assert DatePhraseAt(s, 11);
    assert s[..11] == "Learn Ruby ";
    forall j | 0 <= j < 11 ensures !DatePhraseAt(s, j) {
      assert s[j] == s[..11][j];
    }
    FirstDatePhraseFromFinds(s, 11);
  }

  /** "Learn Ruby by 2024-05-01" is due on 2024-05-01, but its title is "Learn Ru". */
  lemma RubyExample(today: Date)
    requires Valid(today)
    ensures ParseQuickAdd("Learn Ruby by 2024-05-01", today).Some?
    ensures ParseQuickAdd("Learn Ruby by 2024-05-01", today).value.title == "Learn Ru"
    ensures ParseQuickAdd("Learn Ruby by 2024-05-01", today).value.date == "2024-05-01"
  {
    var s := "Learn Ruby by 2024-05-01";
    assert IsStripped(s);
    StripOfStripped(s);
    RubyTitle();
    RubyDate();
  }

  /** The second worked example: a priority tag, no category tag and no "by " phrase. */
  const Alice := "Call Alice priority:HIGH"

  /** In the example text the only ':' is the tag's own, at index 19. */
  lemma ColonOnlyAt19(i: nat)
    requires i < |Alice| && i != 19
    ensures Alice[i] != ':'
  {
    var s := Alice;
    if i < 19 {
      assert s[..19] == "Call Alice priority";
      assert s[i] == s[..19][i];
    } else {
      assert s[20..] == "HIGH";
      assert s[i] == s[20..][i - 20];
    }
  }

  /** A tag of nine characters ending in ':' cannot start where the ninth character is not
      a colon. */
  lemma NoColonNoTag(s: string, tag: string, i: nat)
    requires |tag| == 9 && tag[8] == ':'
    requires i + 8 < |s| ==> s[i + 8] != ':'
    ensures !TagHere(s, tag, i)
  {
  }

  lemma AliceNoBy()
    ensures !Contains(Alice, "by ")
  {
    var s := Alice;
    assert s[..|s|] == s;
    NoOccurrenceBefore(s, "by ", |s|);
  }

  lemma TailRemoved()
    ensures RemoveTag("priority:HIGH", PriorityTag) == []
  {
    var tail := "priority:HIGH";
    assert tail[..9] == PriorityTag;
    assert TagHere(tail, PriorityTag, 0);
    assert WordRun(tail, 9) == "HIGH";
    assert tail[13..] == [];
  }

  lemma AliceRemovePriority()
    ensures RemoveTag(Alice, PriorityTag) == "Call Alice "
  {
    var s, head, tail := Alice, "Call Alice ", "priority:HIGH";
    assert s == head + tail;
    forall i | 0 <= i < |head| ensures !TagHere(s, PriorityTag, i) {
      ColonOnlyAt19(i + 8);
      NoColonNoTag(s, PriorityTag, i);
    }
    RemoveTagKeepsPrefix(head, tail, PriorityTag);
    TailRemoved();
  }

  lemma HeadNoCategory()
    ensures RemoveTag("Call Alice ", CategoryTag) == "Call Alice "
  {
    var head := "Call Alice ";
    forall i | 0 <= i < |head| ensures !TagHere(head, CategoryTag, i) {
      NoColonNoTag(head, CategoryTag, i);
    }
    RemoveTagNoTag(head, CategoryTag);
  }

  lemma StripHead()
    ensures Strip("Call Alice ") == "Call Alice"
  {
    var head := "Call Alice ";
    assert TrimStart(head) == head;
    assert head[..|head| - 1] == "Call Alice";
    assert TrimEnd("Call Alice") == "Call Alice";
  }

  /** "Call Alice priority:HIGH": the tag is deleted from the title. */
  lemma PriorityTitle()
    ensures QuickTitle(Alice) == "Call Alice"
  {
    AliceNoBy();
    AliceRemovePriority();
    HeadNoCategory();
    StripHead();
  }

  lemma AlicePriorityAt11()
    ensures TagAt(Alice, PriorityTag, 11)
  {
    var s := Alice;
    var w := s[11..20];
    assert w == PriorityTag;
    forall i | 0 <= i < |w| ensures Lower(w)[i] == w[i] {
      assert !('A' <= w[i] <= 'Z');
    }
    assert Lower(w) == w;
    assert s[10] == ' ' && s[20] == 'H';
  }

  lemma AliceWordRun()
    ensures WordRun(Alice, 20) == "HIGH"
  {
    var s := Alice;
    var r := WordRun(s, 20);
    assert |s| == 24;
    assert forall k :: 20 <= k < 24 ==> IsWordChar(s[k]);
    assert |r| == 4;
    assert r == s[20..24] == "HIGH";
  }

  /** "Call Alice priority:HIGH": the value of the leftmost priority tag is "HIGH". */
  lemma PriorityValue()
    ensures TagValue(Alice, PriorityTag) == Some("HIGH")
  {
    var s := Alice;
    AlicePriorityAt11();
    forall j | 0 <= j < 11 ensures !TagAt(s, PriorityTag, j) {
      ColonOnlyAt19(j + 8);
      NoColonNoTag(s, PriorityTag, j);
    }
    FirstTagFromFinds(s, PriorityTag, 11);
    AliceWordRun();
  }

  lemma CategoryNotAt(i: nat)
    requires i < |Alice|
    ensures !TagHere(Alice, CategoryTag, i)
  {
    var s := Alice;
    if i == 11 {
      assert s[11] == 'p';
      assert s[11..20][0] == 'p';
      assert Lower(s[11..20])[0] == 'p' != CategoryTag[0];
    } else {
      if i + 8 < |s| {
        ColonOnlyAt19(i + 8);
      }
      NoColonNoTag(s, CategoryTag, i);
    }
  }

  /** "Call Alice priority:HIGH" has no category tag. */
  lemma CategoryAbsent()
    ensures TagValue(Alice, CategoryTag) == None
  {
    forall i | 0 <= i < |Alice| ensures !TagAt(Alice, CategoryTag, i) {
      CategoryNotAt(i);
    }
  }

  lemma CapitalizeHigh()
    ensures Capitalize("HIGH") == "High"
  {
    assert Lower("IGH") == "igh";
  }

  /** A tag sets its field, capitalised, and is deleted from the title; an absent tag leaves
      the default. */
  lemma PriorityExample(today: Date)
    requires Valid(today)
    ensures ParseQuickAdd(Alice, today).Some?
    ensures ParseQuickAdd(Alice, today).value.title == "Call Alice"
    ensures ParseQuickAdd(Alice, today).value.priority == "High"
    ensures ParseQuickAdd(Alice, today).value.category == "General"
  {
    assert IsStripped(Alice);
    StripOfStripped(Alice);
    PriorityTitle();
    PriorityValue();
    CategoryAbsent();
    CapitalizeHigh();
  }
}
