/** The daily popular-people report (backend/app/Console/Commands/PopularPeople.php):
    select at most twenty people at or above a like threshold whose row was
    last touched today (or never), most liked first, and mail a plain-text
    report listing them. The mailer and the clock are parameters. */
module PopularReport {

  import opened Wrappers
  import opened Seqs
  import opened Text
  import opened PeopleApi

  const DefaultThreshold: int := 50
  const DefaultRecipient: string := "admin@example.com"
  const SelectionLimit: int := 20
  const SecondsPerDay: int := 86400
  const Subject: string := "Popular People Report"

  /** The command's exit status (`Command::SUCCESS`). */
  const Success: int := 0

  /** The calendar day (days since the epoch) of a timestamp. */
  function Day(t: Timestamp): int {
    t / SecondsPerDay
  }

  /** At or above the threshold, and updated today or never. */
  predicate Qualifies(p: PersonRow, threshold: int, today: int) {
    p.likeCount >= threshold && (p.updatedAt.None? || Day(p.updatedAt.value) == today)
  }

  function QualifiesFn(threshold: int, today: int): PersonRow -> bool {
    (p: PersonRow) => Qualifies(p, threshold, today)
  }

  function LikeCountKey(p: PersonRow): int {
    p.likeCount
  }

  /** The selection: the qualifying people, most liked first, cut at twenty. */
  function Select(people: seq<PersonRow>, threshold: int, today: int): (r: seq<PersonRow>)
    ensures |r| <= SelectionLimit
    ensures forall p :: p in r ==> p in people && Qualifies(p, threshold, today)
    ensures NonIncreasing(r, LikeCountKey)
    ensures multiset(r) <= multiset(people)
  {
    var qualifying := Filter(people, QualifiesFn(threshold, today));
    var ranked := SortDesc(qualifying, LikeCountKey);
    var n := if |ranked| <= SelectionLimit then |ranked| else SelectionLimit;
    FilterSubMultiset(people, QualifiesFn(threshold, today));
    PrefixFacts(ranked, n, LikeCountKey);
    assert forall p :: p in ranked ==> p in multiset(qualifying);
    ranked[..n]
  }

  /** The selection is the top of the qualifying people: when it is short,
      nobody who qualifies is missing; a qualifying person left out means the
      selection is full and everyone in it has at least as many likes. */
  lemma {:induction false} SelectIsTop(people: seq<PersonRow>, threshold: int, today: int, p: PersonRow)
    requires p in people && Qualifies(p, threshold, today)
    ensures var r := Select(people, threshold, today);
      p !in r ==> |r| == SelectionLimit && forall k :: 0 <= k < |r| ==> r[k].likeCount >= p.likeCount
  {
    var qualifying := Filter(people, QualifiesFn(threshold, today));
    var ranked := SortDesc(qualifying, LikeCountKey);
    assert p in qualifying;
    assert p in multiset(ranked);
    var i :| 0 <= i < |ranked| && ranked[i] == p;
    var r := Select(people, threshold, today);
    if |ranked| <= SelectionLimit {
      assert r == ranked;
    } else {
      assert r == ranked[..SelectionLimit];
      if i < SelectionLimit {
        assert r[i] == p;
      } else {
        forall k | 0 <= k < |r|
          ensures r[k].likeCount >= p.likeCount
        {
          assert r[k] == ranked[k];
          assert LikeCountKey(ranked[k]) >= LikeCountKey(ranked[i]);
        }
      }
    }
  }

  /** One report line: `name (ID id, age yrs, location) — likes likes`. */
  function ReportLine(p: PersonRow): string {
    p.name + " (ID " + IntToString(p.id) + ", " + IntToString(p.age) + " yrs, "
      + p.location + ") \U{2014} " + IntToString(p.likeCount) + " likes"
  }

  function ReportLines(selected: seq<PersonRow>): (lines: seq<string>)
    ensures |lines| == |selected|
    ensures forall k :: 0 <= k < |selected| ==> lines[k] == ReportLine(selected[k])
  {
    if |selected| == 0 then [] else [ReportLine(selected[0])] + ReportLines(selected[1..])
  }

  /** The heading, naming the threshold. */
  function Header(threshold: int): string {
    "\U{1F4CA} Popular People Report (>= " + IntToString(threshold) + " likes)"
  }

  /** The mail body: the heading, a blank line, the lines joined by newlines,
      and a closing newline. */
  function Report(threshold: int, selected: seq<PersonRow>): (body: string)
    ensures |body| >= |Header(threshold)| + 3
    ensures body[..|Header(threshold)| + 2] == Header(threshold) + "\n\n"
    ensures body[|body| - 1] == '\n'
    ensures body[|Header(threshold)| + 2 .. |body| - 1] == Join(ReportLines(selected), "\n")
  {
    var head := Header(threshold) + "\n\n";
    var lines := Join(ReportLines(selected), "\n");
    var body := head + lines + "\n";
    assert body[..|head|] == head;
    assert body[|head| .. |body| - 1] == lines;
    body
  }

  /** The mail body between the heading and the closing newline splits back
      into one line per selected person, in order, as long as no name or
      location contains a newline. */
  lemma ReportLinesRoundTrip(threshold: int, selected: seq<PersonRow>)
    requires |selected| > 0
    requires forall k :: 0 <= k < |selected| ==> '\n' !in selected[k].name && '\n' !in selected[k].location
    ensures var body := Report(threshold, selected);
      Split(body[|Header(threshold)| + 2 .. |body| - 1], '\n') == ReportLines(selected)
  {
    var lines := ReportLines(selected);
    forall k | 0 <= k < |lines|
      ensures '\n' !in lines[k]
    {
      LineHasNoNewline(selected[k]);
    }
    assert "\n" == ['\n'];
    SplitJoin(lines, '\n');
  }

  /** A report line holds no newline when the name and location hold none. */
  lemma LineHasNoNewline(p: PersonRow)
    requires '\n' !in p.name && '\n' !in p.location
    ensures '\n' !in ReportLine(p)
  {
    NoNewlineInNumber(p.id);
    NoNewlineInNumber(p.age);
    NoNewlineInNumber(p.likeCount);
    var a := " (ID ";
    var b := ", ";
    var c := " yrs, ";
    var d := ") \U{2014} ";
    var e := " likes";
    assert '\n' !in a && '\n' !in b && '\n' !in c && '\n' !in d && '\n' !in e;
  }

  /** Rendered numbers hold digits and a sign only. */
  lemma NoNewlineInNumber(i: int)
    ensures '\n' !in IntToString(i)
  {
    var s := IntToString(i);
    if i < 0 {
      assert s == "-" + NatToString(-i);
    }
    forall k | 0 <= k < |s| ensures s[k] != '\n' {
      if i < 0 && k > 0 {
        assert s[k] == NatToString(-i)[k - 1];
      }
    }
  }

  datatype Mail = Mail(to: string, subject: string, body: string)

  /** What a run of the command produces: its exit status, the mail it sent
      (if any) and the lines it printed. */
  datatype Run = Run(exitCode: int, mail: Option<Mail>, output: seq<string>)

  /** `handle`: with nothing selected, print a notice and send no mail;
      otherwise mail the report to the recipient and print it. Every path
      succeeds. */
  function Handle(s: Store, threshold: Option<int>, to: Option<string>, today: int): (r: Run)
    ensures r.exitCode == Success
    ensures var selected := Select(s.people, threshold.GetOr(DefaultThreshold), today);
      && (r.mail.None? <==> selected == [])
      && (r.mail.Some? ==>
        r.mail.value == Mail(to.GetOr(DefaultRecipient), Subject,
                             Report(threshold.GetOr(DefaultThreshold), selected)))
  {
    var t := threshold.GetOr(DefaultThreshold);
    var recipient := to.GetOr(DefaultRecipient);
    var selected := Select(s.people, t, today);
    if selected == [] then
      Run(Success, None, ["No people reached threshold of " + IntToString(t) + " likes today."])
    else
      var report := Report(t, selected);
      Run(Success, Some(Mail(recipient, Subject, report)),
          ["\U{2705} Report sent to " + recipient + ".\n", report])
  }
}
