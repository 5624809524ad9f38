/**
 The baseline ratchets of backend/scripts/_gate_common.py and of
 backend/scripts/check_soft_delete_usage.py, which counts the same way but neither removes
 duplicates nor knows comment lines.

 Entries are compared by key: the path and the code, without the line number. Main results: a
 run passes exactly when the multiset of keys is included in the baseline's (`Compare`), and line
 numbers do not matter (`RenumberingKeepsVerdict`).
 */
module Ratchet {
  import opened Decimal
  import opened Text
  import opened Wrappers

  // ---------------------------------------------------------------- keys

  function UpToColon(s: string): string {
    if s == "" || s[0] == ':' then "" else [s[0]] + UpToColon(s[1..])
  }

  function AfterColon(s: string): Option<string> {
    if s == "" then None else if s[0] == ':' then Some(s[1..]) else AfterColon(s[1..])
  }

  /** What follows the second colon, stripped; empty when there are fewer than two. */
  function CodeOf(entry: string): string {
    match AfterColon(entry)
    case None => ""
    case Some(rest) => match AfterColon(rest) case None => "" case Some(code) => Strip(code)
  }

  function EntryKey(entry: string): string { UpToColon(entry) + "::" + CodeOf(entry) }

  /** How often each key occurs. */
  function KeyCounts(entries: seq<string>): multiset<string> {
    if entries == [] then multiset{}
    else KeyCounts(entries[..|entries| - 1]) + multiset{EntryKey(entries[|entries| - 1])}
  }

  // ---------------------------------------------------------------- the counting loop

  /** The entries that exceed the known count of their key at the point where they come. */
  function Excess(entries: seq<string>, known: multiset<string>): seq<string> {
    if entries == [] then []
    else
      var last := entries[|entries| - 1];
      Excess(entries[..|entries| - 1], known)
      + (if KeyCounts(entries)[EntryKey(last)] > known[EntryKey(last)] then [last] else [])
  }

  function Stale(known: seq<string>, counts: multiset<string>, seen: multiset<string>): seq<string> {
    if known == [] then []
    else (if counts[EntryKey(known[0])] > seen[EntryKey(known[0])] then [known[0]] else [])
         + Stale(known[1..], counts, seen)
  }

  lemma MinusAfterOneMore(a: multiset<string>, b: multiset<string>, k: string)
    ensures (a + multiset{k}) - b == (a - b) + (if a[k] + 1 > b[k] then multiset{k} else multiset{})
  {}

  lemma KeyCountsSnoc(entries: seq<string>, e: string)
    ensures KeyCounts(entries + [e]) == KeyCounts(entries) + multiset{EntryKey(e)}
  {
    assert (entries + [e])[..|entries|] == entries;
  }

  lemma ExcessSnoc(front: seq<string>, last: string, known: multiset<string>)
    ensures Excess(front + [last], known)
            == Excess(front, known)
               + (if KeyCounts(front)[EntryKey(last)] + 1 > known[EntryKey(last)] then [last] else [])
  {
    assert (front + [last])[..|front|] == front;
    KeyCountsSnoc(front, last);
  }

  lemma ExcessCountsSnoc(front: seq<string>, last: string, known: multiset<string>)
    ensures KeyCounts(Excess(front + [last], known))
            == KeyCounts(Excess(front, known))
               + (if KeyCounts(front)[EntryKey(last)] + 1 > known[EntryKey(last)] then multiset{EntryKey(last)}
                  else multiset{})
  {
    ExcessSnoc(front, last, known);
    KeyCountsSnoc(Excess(front, known), last);
    assert Excess(front, known) + [] == Excess(front, known);
  }

  lemma {:induction false} ExcessIsTheDifference(entries: seq<string>, known: multiset<string>)
    ensures KeyCounts(Excess(entries, known)) == KeyCounts(entries) - known
  {
    if entries != [] {
      var front, last := entries[..|entries| - 1], entries[|entries| - 1];
      assert entries == front + [last];
      ExcessIsTheDifference(front, known);
      ExcessCountsSnoc(front, last, known);
      KeyCountsSnoc(front, last);
      MinusAfterOneMore(KeyCounts(front), known, EntryKey(last));
    }
  }

  lemma {:induction false} KeyOfMember(entries: seq<string>, e: string)
    requires e in entries
    ensures EntryKey(e) in KeyCounts(entries)
  {
    var front, last := entries[..|entries| - 1], entries[|entries| - 1];
    if e != last {
      assert entries == front + [last];
      KeyOfMember(front, e);
    }
  }

  lemma {:induction false} MemberOfKey(entries: seq<string>, k: string)
    requires k in KeyCounts(entries)
    ensures exists e :: e in entries && EntryKey(e) == k
  {
    var front, last := entries[..|entries| - 1], entries[|entries| - 1];
    assert last in entries;
    if EntryKey(last) != k {
      MemberOfKey(front, k);
      var e :| e in front && EntryKey(e) == k;
      assert e in entries;
    }
  }

  lemma {:induction false} StaleMembers(known: seq<string>, counts: multiset<string>, seen: multiset<string>)
    ensures forall e :: e in Stale(known, counts, seen)
                        <==> e in known && counts[EntryKey(e)] > seen[EntryKey(e)]
  {
    if known != [] {
      StaleMembers(known[1..], counts, seen);
      forall e ensures e in known <==> e == known[0] || e in known[1..] {}
    }
  }

  lemma NothingStaleIff(known: seq<string>, seen: multiset<string>)
    ensures Stale(known, KeyCounts(known), seen) == [] <==> KeyCounts(known) <= seen
  {
    var counts := KeyCounts(known);
    var stale := Stale(known, counts, seen);
    StaleMembers(known, counts, seen);
    if stale == [] {
      forall k ensures counts[k] <= seen[k] {
        if k in counts {
          MemberOfKey(known, k);
          var e :| e in known && EntryKey(e) == k;
          assert e !in stale;
        }
      }
    } else {
      assert stale[0] in stale;
    }
  }

  /** The loop both gates share. The new entries carry exactly the excess of the current key
      counts over the known ones, so nothing is new exactly when the current multiset of keys
      is included in the baseline's, and nothing is stale exactly when it is the other way. */
  method Compare(violations: seq<string>, known: seq<string>) returns (excess: seq<string>, stale: seq<string>)
    ensures KeyCounts(excess) == KeyCounts(violations) - KeyCounts(known)
    ensures excess == [] <==> KeyCounts(violations) <= KeyCounts(known)
    ensures excess == Excess(violations, KeyCounts(known))
    ensures stale == [] <==> KeyCounts(known) <= KeyCounts(violations)
    ensures forall e :: e in stale <==>
                        e in known && KeyCounts(known)[EntryKey(e)] > KeyCounts(violations)[EntryKey(e)]
  {
    hide KeyCounts, Excess, Stale;
    var knownCounts := KeyCounts(known);
    var seen: multiset<string> := multiset{};
    excess := [];
    EmptyCounts(knownCounts);
    for i := 0 to |violations|
      invariant seen == KeyCounts(violations[..i])
      invariant excess == Excess(violations[..i], knownCounts)
    {
      var k := EntryKey(violations[i]);
      assert violations[..i + 1] == violations[..i] + [violations[i]];
      KeyCountsSnoc(violations[..i], violations[i]);
      ExcessSnoc(violations[..i], violations[i], knownCounts);
      seen := seen[k := seen[k] + 1];
      if seen[k] > knownCounts[k] { excess := excess + [violations[i]]; }
    }
    assert violations[..|violations|] == violations;
    stale := Stale(known, knownCounts, seen);
    ExcessIsTheDifference(violations, knownCounts);
    StaleMembers(known, knownCounts, seen);
    NothingStaleIff(known, seen);
    NoExcessIff(excess, KeyCounts(violations), knownCounts);
  }

  lemma EmptyCounts(known: multiset<string>)
    ensures KeyCounts([]) == multiset{} && Excess([], known) == []
  {}

  lemma NoExcessIff(excess: seq<string>, current: multiset<string>, known: multiset<string>)
    requires KeyCounts(excess) == current - known
    ensures excess == [] <==> current <= known
  {
    if excess == [] {
      forall k ensures current[k] <= known[k] {
        assert (current - known)[k] == 0;
      }
    } else {
      KeyOfMember(excess, excess[0]);
      assert (current - known)[EntryKey(excess[0])] > 0;
    }
  }

  // ---------------------------------------------------------------- normalising and sorting

  function Slash(s: string): (r: string)
    ensures |r| == |s|
    ensures forall i :: 0 <= i < |s| ==> r[i] == if s[i] == '\\' then '/' else s[i]
  {
    seq(|s|, i requires 0 <= i < |s| => if s[i] == '\\' then '/' else s[i])
  }

  function SlashAll(entries: seq<string>): (r: seq<string>)
    ensures |r| == |entries| && forall i :: 0 <= i < |r| ==> r[i] == Slash(entries[i])
  {
    if entries == [] then [] else [Slash(entries[0])] + SlashAll(entries[1..])
  }

  predicate NotAfter(a: string, b: string) {
    a == "" || (b != "" && (a[0] < b[0] || (a[0] == b[0] && NotAfter(a[1..], b[1..]))))
  }

  /** Code point order: a start of the other text, or smaller at the first difference. */
  lemma {:induction false} NotAfterIff(a: string, b: string)
    ensures NotAfter(a, b) <==> a <= b || exists k: nat :: FirstSmaller(a, b, k)
  {
    if a != "" && b != "" {
      NotAfterIff(a[1..], b[1..]);
      if a[0] < b[0] { assert FirstSmaller(a, b, 0); }
      if a[0] == b[0] {
        assert a <= b <==> a[1..] <= b[1..];
        if k: nat :| FirstSmaller(a[1..], b[1..], k) {
          assert a[..k + 1] == [a[0]] + a[1..][..k] && b[..k + 1] == [b[0]] + b[1..][..k];
          assert FirstSmaller(a, b, k + 1);
        }
      }
      if k: nat :| FirstSmaller(a, b, k) {
        if k > 0 {
          assert a[..k][0] == b[..k][0];
          assert a[1..][..k - 1] == a[..k][1..] && b[1..][..k - 1] == b[..k][1..];
          assert FirstSmaller(a[1..], b[1..], k - 1);
        }
      }
    }
  }

  predicate FirstSmaller(a: string, b: string, k: nat) {
    k < |a| && k < |b| && a[..k] == b[..k] && a[k] < b[k]
  }

  function Insert(v: string, s: seq<string>): seq<string> {
    if s == [] || NotAfter(v, s[0]) then [v] + s else [s[0]] + Insert(v, s[1..])
  }

  function Sort(entries: seq<string>): seq<string> {
    if entries == [] then [] else Insert(entries[0], Sort(entries[1..]))
  }

  /** Each entry once. */
  function Dedupe(entries: seq<string>): seq<string> {
    if entries == [] then []
    else if entries[0] in entries[1..] then Dedupe(entries[1..])
    else [entries[0]] + Dedupe(entries[1..])
  }

  predicate Distinct(entries: seq<string>) {
    forall i, j :: 0 <= i < j < |entries| ==> entries[i] != entries[j]
  }

  predicate Sorted(entries: seq<string>) {
    forall i :: 0 < i < |entries| ==> NotAfter(entries[i - 1], entries[i])
  }

  /** The violations as `run_gate` counts them: with forward slashes, each once, sorted. */
  function Normalized(violations: seq<string>): seq<string> { Sort(Dedupe(SlashAll(violations))) }

  lemma {:induction false} NotAfterTotal(a: string, b: string)
    ensures NotAfter(a, b) || NotAfter(b, a)
  {
    if a != "" && b != "" && a[0] == b[0] { NotAfterTotal(a[1..], b[1..]); }
  }

  lemma {:induction false} InsertFacts(v: string, s: seq<string>)
    ensures multiset(Insert(v, s)) == multiset{v} + multiset(s)
    ensures Sorted(s) ==> Sorted(Insert(v, s))
    ensures Insert(v, s)[0] == v || (s != [] && Insert(v, s)[0] == s[0])
  {
    if s == [] || NotAfter(v, s[0]) {
    } else {
      NotAfterTotal(v, s[0]);
      InsertFacts(v, s[1..]);
      assert s == [s[0]] + s[1..];
      if Sorted(s) {
        assert Sorted(s[1..]) by {
          forall i | 0 < i < |s[1..]| ensures NotAfter(s[1..][i - 1], s[1..][i]) { assert NotAfter(s[i], s[i + 1]); }
        }
        if |s| > 1 { assert NotAfter(s[0], s[1]); }
      }
    }
  }

  lemma {:induction false} SortFacts(entries: seq<string>)
    ensures multiset(Sort(entries)) == multiset(entries) && Sorted(Sort(entries))
  {
    if entries != [] {
      SortFacts(entries[1..]);
      InsertFacts(entries[0], Sort(entries[1..]));
      assert entries == [entries[0]] + entries[1..];
    }
  }

  lemma {:induction false} DedupeFacts(entries: seq<string>)
    ensures Distinct(Dedupe(entries))
    ensures forall e :: e in Dedupe(entries) <==> e in entries
  {
    if entries != [] {
      DedupeFacts(entries[1..]);
      forall e ensures e in entries <==> e == entries[0] || e in entries[1..] {}
    }
  }

  /** Sorted, and every violation exactly once. */
  lemma NormalizedIsSortedSet(violations: seq<string>)
    ensures Sorted(Normalized(violations))
    ensures forall e :: multiset(Normalized(violations))[e] == if e in SlashAll(violations) then 1 else 0
  {
    var distinct := Dedupe(SlashAll(violations));
    DedupeFacts(SlashAll(violations));
    SortFacts(distinct);
    forall e ensures multiset(distinct)[e] == if e in distinct then 1 else 0 { CountDistinct(distinct, e); }
  }

  lemma {:induction false} CountDistinct(entries: seq<string>, e: string)
    requires Distinct(entries)
    ensures multiset(entries)[e] == if e in entries then 1 else 0
  {
    if entries != [] {
      assert entries == [entries[0]] + entries[1..];
      CountDistinct(entries[1..], e);
    }
  }

  lemma {:induction false} KeyCountsAppend(a: seq<string>, b: seq<string>)
    ensures KeyCounts(a + b) == KeyCounts(a) + KeyCounts(b)
  {
    if b == [] {
      assert a + b == a;
    } else {
      assert (a + b)[..|a + b| - 1] == a + b[..|b| - 1];
      KeyCountsAppend(a, b[..|b| - 1]);
    }
  }

  lemma KeyCountsFirst(entries: seq<string>)
    requires entries != []
    ensures KeyCounts(entries) == multiset{EntryKey(entries[0])} + KeyCounts(entries[1..])
  {
    assert entries == [entries[0]] + entries[1..];
    KeyCountsAppend([entries[0]], entries[1..]);
    assert [entries[0]][..0] == [];
  }

  lemma {:induction false} KeyCountsInsert(v: string, s: seq<string>)
    ensures KeyCounts(Insert(v, s)) == multiset{EntryKey(v)} + KeyCounts(s)
  {
    KeyCountsFirst(Insert(v, s));
    if s == [] || NotAfter(v, s[0]) {
      assert ([v] + s)[1..] == s;
    } else {
      KeyCountsInsert(v, s[1..]);
      KeyCountsFirst(s);
    }
  }

  lemma {:induction false} KeyCountsSort(entries: seq<string>)
    ensures KeyCounts(Sort(entries)) == KeyCounts(entries)
  {
    if entries != [] {
      KeyCountsSort(entries[1..]);
      KeyCountsInsert(entries[0], Sort(entries[1..]));
      KeyCountsFirst(entries);
    }
  }

  lemma {:induction false} KeyCountsSize(entries: seq<string>)
    ensures |KeyCounts(entries)| == |entries|
  {
    if entries != [] { KeyCountsSize(entries[..|entries| - 1]); }
  }

  /** Removing duplicates only lowers counts. */
  lemma {:induction false} DedupeLowersCounts(entries: seq<string>)
    ensures KeyCounts(Dedupe(entries)) <= KeyCounts(entries)
  {
    if entries != [] {
      DedupeLowersCounts(entries[1..]);
      KeyCountsFirst(entries);
      if entries[0] !in entries[1..] {
        KeyCountsFirst(Dedupe(entries));
        assert Dedupe(entries)[1..] == Dedupe(entries[1..]);
      }
    }
  }

  lemma DistinctTail(entries: seq<string>)
    requires entries != []
    ensures Distinct(entries) <==> entries[0] !in entries[1..] && Distinct(entries[1..])
  {
    assert entries == [entries[0]] + entries[1..];
    if entries[0] in entries[1..] {
      var i :| 0 <= i < |entries[1..]| && entries[1..][i] == entries[0];
      assert entries[0] == entries[i + 1];
    }
    if Distinct(entries) {
      forall i, j | 0 <= i < j < |entries[1..]| ensures entries[1..][i] != entries[1..][j] {
        assert entries[i + 1] != entries[j + 1];
      }
    }
  }

  /** It changes nothing on duplicate-free input and shortens every other. */
  lemma {:induction false} DedupeSize(entries: seq<string>)
    ensures |Dedupe(entries)| <= |entries|
    ensures Distinct(entries) ==> Dedupe(entries) == entries
    ensures !Distinct(entries) ==> |Dedupe(entries)| < |entries|
  {
    if entries != [] {
      DistinctTail(entries);
      DedupeSize(entries[1..]);
    }
  }

  // ---------------------------------------------------------------- the baseline file

  /** The stripped lines that are not blank and, when comments are known, do not start with `#`. */
  function Kept(lines: seq<string>, comments: bool): seq<string> {
    if lines == [] then []
    else
      var line := Strip(lines[0]);
      (if line == "" || (comments && "#" <= line) then [] else [line]) + Kept(lines[1..], comments)
  }

  function Known(file: Option<string>, comments: bool): seq<string> {
    match file case None => [] case Some(text) => Kept(SplitLines(text), comments)
  }

  function BaselineText(entries: seq<string>): string { JoinLines(entries) + "\n" }

  predicate GatePasses(violations: seq<string>, file: Option<string>) {
    KeyCounts(Normalized(violations)) <= KeyCounts(Known(file, true))
  }

  predicate SoftDeletePasses(violations: seq<string>, file: Option<string>) {
    KeyCounts(SlashAll(violations)) <= KeyCounts(Known(file, false))
  }

  /** `run_gate`: writes the baseline, or compares with it and leaves it alone. */
  method RunGate(baselineMode: bool, violations: seq<string>, file: Option<string>)
    returns (exit: nat, file': Option<string>, excess: seq<string>, stale: seq<string>)
    ensures baselineMode ==> exit == 0 && file' == Some(BaselineText(Normalized(violations)))
    ensures !baselineMode ==> file' == file && exit == if GatePasses(violations, file) then 0 else 1
    ensures !baselineMode ==>
              KeyCounts(excess) == KeyCounts(Normalized(violations)) - KeyCounts(Known(file, true))
    ensures !baselineMode ==>
              (excess == [] && stale == [] <==> KeyCounts(Normalized(violations)) == KeyCounts(Known(file, true)))
  {
    excess, stale := [], [];
    var entries := Normalized(violations);
    if baselineMode { return 0, Some(BaselineText(entries)), [], []; }
    excess, stale := Compare(entries, Known(file, true));
    return if excess != [] then 1 else 0, file, excess, stale;
  }

  /** The `main` of the soft-delete gate. */
  method RunSoftDeleteGate(baselineMode: bool, violations: seq<string>, file: Option<string>)
    returns (exit: nat, file': Option<string>, excess: seq<string>, stale: seq<string>)
    ensures baselineMode ==> exit == 0 && file' == Some(BaselineText(Sort(SlashAll(violations))))
    ensures !baselineMode ==> file' == file && exit == if SoftDeletePasses(violations, file) then 0 else 1
    ensures !baselineMode ==>
              KeyCounts(excess) == KeyCounts(SlashAll(violations)) - KeyCounts(Known(file, false))
    ensures !baselineMode ==>
              (excess == [] && stale == [] <==> KeyCounts(SlashAll(violations)) == KeyCounts(Known(file, false)))
  {
    excess, stale := [], [];
    var entries := SlashAll(violations);
    if baselineMode { return 0, Some(BaselineText(Sort(entries))), [], []; }
    excess, stale := Compare(entries, Known(file, false));
    return if excess != [] then 1 else 0, file, excess, stale;
  }

  // ---------------------------------------------------------------- renumbering

  datatype Finding = Finding(path: string, line: nat, code: string)

  /** The `path:line: code` form in which the scanners report. */
  function PrintFinding(f: Finding): string {
    f.path + (":" + (Numeral(DigitsOf(f.line)) + (":" + (" " + f.code))))
  }

  function PrintAll(findings: seq<Finding>): (r: seq<string>)
    ensures |r| == |findings| && forall i :: 0 <= i < |r| ==> r[i] == PrintFinding(findings[i])
  {
    if findings == [] then [] else [PrintFinding(findings[0])] + PrintAll(findings[1..])
  }

  type Renumbering = (string, nat) -> nat

  ghost predicate InjectivePerFile(ren: Renumbering) {
    forall path, a, b :: ren(path, a) == ren(path, b) ==> a == b
  }

  function Move(f: Finding, ren: Renumbering): Finding { f.(line := ren(f.path, f.line)) }

  function MoveAll(findings: seq<Finding>, ren: Renumbering): (r: seq<Finding>)
    ensures |r| == |findings| && forall i :: 0 <= i < |r| ==> r[i] == Move(findings[i], ren)
  {
    if findings == [] then [] else [Move(findings[0], ren)] + MoveAll(findings[1..], ren)
  }

  /** A relative path with forward slashes. */
  ghost predicate PlainPath(path: string) {
    forall i :: 0 <= i < |path| ==> path[i] != ':' && path[i] != '\\'
  }

  lemma {:induction false} FirstColon(a: string, rest: string)
    requires forall i :: 0 <= i < |a| ==> a[i] != ':'
    ensures UpToColon(a + (":" + rest)) == a && AfterColon(a + (":" + rest)) == Some(rest)
  {
    if a == "" {
      assert a + (":" + rest) == ":" + rest;
    } else {
      assert (a + (":" + rest))[1..] == a[1..] + (":" + rest);
      FirstColon(a[1..], rest);
    }
  }

  lemma SlashAppend(a: string, b: string)
    ensures Slash(a + b) == Slash(a) + Slash(b)
  {}

  lemma SlashPrinted(f: Finding)
    requires PlainPath(f.path)
    ensures Slash(PrintFinding(f)) == f.path + (":" + (Numeral(DigitsOf(f.line)) + (":" + (" " + Slash(f.code)))))
  {
    var number := Numeral(DigitsOf(f.line));
    SlashAppend(" ", f.code);
    SlashAppend(":", " " + f.code);
    SlashAppend(number, ":" + (" " + f.code));
    SlashAppend(":", number + (":" + (" " + f.code)));
    SlashAppend(f.path, ":" + (number + (":" + (" " + f.code))));
    assert Slash(f.path) == f.path && Slash(":") == ":" && Slash(" ") == " " && Slash(number) == number;
  }

  lemma PrintedParts(f: Finding)
    requires PlainPath(f.path)
    ensures var s := Slash(PrintFinding(f));
            && UpToColon(s) == f.path && AfterColon(s).Some?
            && UpToColon(AfterColon(s).value) == Numeral(DigitsOf(f.line))
            && AfterColon(AfterColon(s).value) == Some(" " + Slash(f.code))
  {
    SlashPrinted(f);
    var number := Numeral(DigitsOf(f.line));
    FirstColon(f.path, number + (":" + (" " + Slash(f.code))));
    FirstColon(number, " " + Slash(f.code));
  }

  lemma NumeralInjective(a: nat, b: nat)
    requires Numeral(DigitsOf(a)) == Numeral(DigitsOf(b))
    ensures a == b
  {
    hide DigitsOf, ValueOf;
    DigitsRoundTrip(a);
    DigitsRoundTrip(b);
    var s, t := DigitsOf(a), DigitsOf(b);
    assert |s| == |t|;
    forall i | 0 <= i < |s| ensures s[i] == t[i] {
      assert Numeral(s)[i] == Numeral(t)[i];
    }
    assert s == t;
  }

  /** Two findings print alike exactly when they agree up to the slashes of their code. */
  lemma PrintsAlikeIff(f: Finding, g: Finding)
    requires PlainPath(f.path) && PlainPath(g.path)
    ensures Slash(PrintFinding(f)) == Slash(PrintFinding(g))
            <==> f.path == g.path && f.line == g.line && Slash(f.code) == Slash(g.code)
  {
    SlashPrinted(f);
    SlashPrinted(g);
    PrintedParts(f);
    PrintedParts(g);
    if Slash(PrintFinding(f)) == Slash(PrintFinding(g)) {
      NumeralInjective(f.line, g.line);
      assert (" " + Slash(f.code))[1..] == Slash(f.code);
      assert (" " + Slash(g.code))[1..] == Slash(g.code);
    }
  }

  lemma {:induction false} RStripBehindSpace(s: string)
    ensures RStrip(" " + s) == if RStrip(s) == "" then "" else " " + RStrip(s)
  {
    var t := " " + s;
    if s == "" {
      assert t[..0] == "" && t == " ";
    } else if IsSpace(s[|s| - 1]) {
      assert t[..|t| - 1] == " " + s[..|s| - 1];
      RStripBehindSpace(s[..|s| - 1]);
    }
  }

  lemma StripBehindSpace(s: string)
    ensures Strip(" " + s) == Strip(s)
  {
    RStripBehindSpace(s);
    assert (" " + RStrip(s))[1..] == RStrip(s);
  }

  /** The key of a finding: its path and its stripped code, but not its line. */
  lemma KeyOfFinding(f: Finding)
    requires PlainPath(f.path)
    ensures EntryKey(Slash(PrintFinding(f))) == f.path + "::" + Strip(Slash(f.code))
  {
    PrintedParts(f);
    StripBehindSpace(Slash(f.code));
  }

  lemma KeyParts(path: string, code: string)
    requires PlainPath(path)
    ensures UpToColon(path + "::" + code) == path && AfterColon(path + "::" + code) == Some(":" + code)
  {
    assert path + "::" + code == path + (":" + (":" + code));
    FirstColon(path, ":" + code);
  }

  /** Two findings share a key exactly when they share path and stripped code. */
  lemma SameKeyIff(f: Finding, g: Finding)
    requires PlainPath(f.path) && PlainPath(g.path)
    ensures EntryKey(Slash(PrintFinding(f))) == EntryKey(Slash(PrintFinding(g)))
            <==> f.path == g.path && Strip(Slash(f.code)) == Strip(Slash(g.code))
  {
    hide UpToColon, AfterColon, EntryKey, PrintFinding, Strip;
    var a, b := Strip(Slash(f.code)), Strip(Slash(g.code));
    KeyOfFinding(f);
    KeyOfFinding(g);
    KeyParts(f.path, a);
    KeyParts(g.path, b);
    assert (":" + a)[1..] == a && (":" + b)[1..] == b;
  }

  lemma MovedKey(f: Finding, ren: Renumbering)
    requires PlainPath(f.path)
    ensures EntryKey(Slash(PrintFinding(Move(f, ren)))) == EntryKey(Slash(PrintFinding(f)))
  {
    KeyOfFinding(f);
    KeyOfFinding(Move(f, ren));
  }

  ghost predicate PlainPaths(findings: seq<Finding>) {
    forall i :: 0 <= i < |findings| ==> PlainPath(findings[i].path)
  }

  lemma MovedMembership(f: Finding, rest: seq<Finding>, ren: Renumbering)
    requires PlainPath(f.path) && PlainPaths(rest) && InjectivePerFile(ren)
    ensures Slash(PrintFinding(Move(f, ren))) in SlashAll(PrintAll(MoveAll(rest, ren)))
            <==> Slash(PrintFinding(f)) in SlashAll(PrintAll(rest))
  {
    var moved, kept := SlashAll(PrintAll(MoveAll(rest, ren))), SlashAll(PrintAll(rest));
    forall i | 0 <= i < |rest|
      ensures moved[i] == Slash(PrintFinding(Move(f, ren))) <==> kept[i] == Slash(PrintFinding(f))
    {
      PrintsAlikeIff(rest[i], f);
      PrintsAlikeIff(Move(rest[i], ren), Move(f, ren));
    }
  }

  lemma {:induction false} MovedDedupeCounts(findings: seq<Finding>, ren: Renumbering)
    requires PlainPaths(findings) && InjectivePerFile(ren)
    ensures KeyCounts(Dedupe(SlashAll(PrintAll(MoveAll(findings, ren)))))
            == KeyCounts(Dedupe(SlashAll(PrintAll(findings))))
  {
    if findings != [] {
      var f, rest := findings[0], findings[1..];
      MovedDedupeCounts(rest, ren);
      MovedMembership(f, rest, ren);
      MovedKey(f, ren);
      var moved, kept := SlashAll(PrintAll(MoveAll(rest, ren))), SlashAll(PrintAll(rest));
      KeyCountsAppend([Slash(PrintFinding(Move(f, ren)))], Dedupe(moved));
      KeyCountsAppend([Slash(PrintFinding(f))], Dedupe(kept));
      SingleKey(Slash(PrintFinding(Move(f, ren))));
      SingleKey(Slash(PrintFinding(f)));
      DedupeFirst(SlashAll(PrintAll(MoveAll(findings, ren))));
      DedupeFirst(SlashAll(PrintAll(findings)));
    }
  }

  lemma SingleKey(e: string)
    ensures KeyCounts([e]) == multiset{EntryKey(e)}
  {
    assert [e][..0] == [];
  }

  lemma DedupeFirst(entries: seq<string>)
    requires entries != []
    ensures Dedupe(entries) == (if entries[0] in entries[1..] then [] else [entries[0]]) + Dedupe(entries[1..])
  {}

  /** Moving findings to other lines, no two of a file to the same one, changes neither the
      verdict nor the number of new entries, whatever the baseline. */
  lemma RenumberingKeepsVerdict(findings: seq<Finding>, ren: Renumbering, file: Option<string>)
    requires PlainPaths(findings) && InjectivePerFile(ren)
    ensures var before, after := PrintAll(findings), PrintAll(MoveAll(findings, ren));
            && KeyCounts(Normalized(after)) == KeyCounts(Normalized(before))
            && (GatePasses(after, file) <==> GatePasses(before, file))
  {
    MovedDedupeCounts(findings, ren);
    KeyCountsSort(Dedupe(SlashAll(PrintAll(findings))));
    KeyCountsSort(Dedupe(SlashAll(PrintAll(MoveAll(findings, ren)))));
  }

  lemma {:induction false} MovedCounts(findings: seq<Finding>, ren: Renumbering)
    requires PlainPaths(findings)
    ensures KeyCounts(SlashAll(PrintAll(MoveAll(findings, ren)))) == KeyCounts(SlashAll(PrintAll(findings)))
  {
    if findings != [] {
      hide EntryKey, PrintFinding, KeyCounts, Slash;
      MovedKey(findings[0], ren);
      MovedCounts(findings[1..], ren);
      KeyCountsFirst(SlashAll(PrintAll(MoveAll(findings, ren))));
      KeyCountsFirst(SlashAll(PrintAll(findings)));
    }
  }

  /** The soft-delete gate, which keeps duplicates, does not mind any renumbering, not even one
      that puts several findings on one line. */
  lemma AnyRenumberingKeepsSoftDeleteVerdict(findings: seq<Finding>, ren: Renumbering, file: Option<string>)
    requires PlainPaths(findings)
    ensures SoftDeletePasses(PrintAll(MoveAll(findings, ren)), file) <==> SoftDeletePasses(PrintAll(findings), file)
  {
    MovedCounts(findings, ren);
  }
}
