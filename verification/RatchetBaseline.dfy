/**
 Writing the baseline of a ratchet and reading it back, and the two gates compared.

 Main results: a freshly written baseline passes exactly when every entry survives stripping and,
 where comments are known, does not start with `#` (`BaselinePassesIff`); and the two gates agree
 on every baseline exactly when the violations are duplicate-free or one of them has a key that
 no baseline line can have (`SameVerdictIff`).
 */
module RatchetBaseline {
  import opened Ratchet
  import opened Text
  import opened Wrappers

  // ---------------------------------------------------------------- keys of stripped entries

  lemma {:induction false} ColonAppend(s: string, c: char)
    requires c != ':'
    ensures ':' in s ==> UpToColon(s + [c]) == UpToColon(s) && AfterColon(s).Some?
                         && AfterColon(s + [c]) == Some(AfterColon(s).value + [c])
    ensures ':' !in s ==> UpToColon(s + [c]) == s + [c] && UpToColon(s) == s
                          && AfterColon(s + [c]) == AfterColon(s) == None
  {
    if s == "" {
      assert s + [c] == [c] && [c][1..] == "";
    } else {
      assert (s + [c])[1..] == s[1..] + [c];
      assert s == [s[0]] + s[1..];
      ColonAppend(s[1..], c);
    }
  }

  /** White space at the end shows in the key only of an entry without a colon. */
  lemma KeyAppend(s: string, c: char)
    requires IsSpace(c)
    ensures ':' in s ==> EntryKey(s + [c]) == EntryKey(s)
    ensures ':' !in s ==> |EntryKey(s + [c])| == |EntryKey(s)| + 1
  {
    hide Strip;
    ColonAppend(s, c);
    if ':' in s {
      var rest := AfterColon(s).value;
      ColonAppend(rest, c);
      if ':' in rest { StripAppend(AfterColon(rest).value, c); }
    }
  }

  lemma {:induction false} KeyOfRStrip(s: string)
    ensures |EntryKey(RStrip(s))| <= |EntryKey(s)|
    ensures ':' in s || s == "" || !IsSpace(s[|s| - 1]) ==> EntryKey(RStrip(s)) == EntryKey(s)
    ensures ':' !in s && s != "" && IsSpace(s[|s| - 1]) ==> |EntryKey(RStrip(s))| < |EntryKey(s)|
  {
    hide EntryKey;
    if s != "" && IsSpace(s[|s| - 1]) {
      var front, last := s[..|s| - 1], s[|s| - 1];
      assert s == front + [last];
      KeyAppend(front, last);
      KeyOfRStrip(front);
    }
  }

  lemma KeyPrepend(c: char, s: string)
    requires c != ':'
    ensures EntryKey([c] + s) == [c] + EntryKey(s)
  {
    assert ([c] + s)[1..] == s;
  }

  lemma {:induction false} KeyOfLStrip(s: string)
    ensures |EntryKey(LStrip(s))| <= |EntryKey(s)|
    ensures s != "" && IsSpace(s[0]) ==> |EntryKey(LStrip(s))| < |EntryKey(s)|
  {
    hide EntryKey;
    if s != "" && IsSpace(s[0]) {
      assert s == [s[0]] + s[1..];
      KeyPrepend(s[0], s[1..]);
      KeyOfLStrip(s[1..]);
    }
  }

  // ---------------------------------------------------------------- reading a baseline back

  /** An entry that is read back with its key: white space neither at its start nor, without a
      colon, at its end, and no comment where those are known. */
  predicate Survives(entry: string, comments: bool) {
    && entry != "" && !IsSpace(entry[0]) && (':' in entry || !IsSpace(entry[|entry| - 1]))
    && !(comments && entry[0] == '#')
  }

  predicate Dropped(entry: string, comments: bool) {
    Strip(entry) == "" || (comments && "#" <= Strip(entry))
  }

  lemma StripKeepsStart(s: string)
    requires s != "" && !IsSpace(s[0])
    ensures Strip(s) == RStrip(s) != "" && Strip(s)[0] == s[0]
  {
    RStripKeepsStart(s);
  }

  lemma {:induction false} RStripKeepsStart(s: string)
    requires s != "" && !IsSpace(s[0])
    ensures RStrip(s) != "" && RStrip(s)[0] == s[0]
  {
    if IsSpace(s[|s| - 1]) { RStripKeepsStart(s[..|s| - 1]); }
  }

  /** A surviving entry keeps its key; any other is dropped or gets a shorter one. */
  lemma EntryReadBack(e: string, comments: bool)
    ensures Survives(e, comments) ==> !Dropped(e, comments) && EntryKey(Strip(e)) == EntryKey(e)
    ensures !Survives(e, comments) ==> Dropped(e, comments) || |EntryKey(Strip(e))| < |EntryKey(e)|
  {
    hide EntryKey;
    KeyOfRStrip(e);
    KeyOfLStrip(RStrip(e));
    if e != "" && !IsSpace(e[0]) {
      StripKeepsStart(e);
      assert "#" <= Strip(e) <==> Strip(e)[0] == '#';
    } else if e != "" && RStrip(e) != "" {
      assert RStrip(e)[0] == e[0];
    }
  }

  function KeyWeight(entries: seq<string>): nat {
    if entries == [] then 0 else |EntryKey(entries[0])| + KeyWeight(entries[1..])
  }

  ghost predicate AllSurvive(entries: seq<string>, comments: bool) {
    forall i :: 0 <= i < |entries| ==> Survives(entries[i], comments)
  }

  lemma AllSurviveFirst(entries: seq<string>, comments: bool)
    requires entries != []
    ensures AllSurvive(entries, comments) <==> Survives(entries[0], comments) && AllSurvive(entries[1..], comments)
  {
    hide Survives;
    var tail := entries[1..];
    assert forall i :: 0 <= i < |tail| ==> tail[i] == entries[i + 1];
    if Survives(entries[0], comments) && AllSurvive(tail, comments) {
      forall i | 0 <= i < |entries| ensures Survives(entries[i], comments) {
        if i > 0 { assert tail[i - 1] == entries[i]; }
      }
    }
  }

  lemma KeptFirst(entries: seq<string>, comments: bool)
    requires entries != []
    ensures Kept(entries, comments)
            == (if Dropped(entries[0], comments) then [] else [Strip(entries[0])]) + Kept(entries[1..], comments)
  {}

  lemma WeightFirst(e: string, rest: seq<string>)
    ensures KeyWeight([e] + rest) == |EntryKey(e)| + KeyWeight(rest)
    ensures KeyCounts([e] + rest) == multiset{EntryKey(e)} + KeyCounts(rest)
  {
    assert ([e] + rest)[1..] == rest;
    KeyCountsFirst([e] + rest);
  }

  /** Reading keeps all key counts exactly when every entry survives, and otherwise makes the
      keys shorter in all. */
  lemma {:induction false} KeptKeys(entries: seq<string>, comments: bool)
    ensures KeyWeight(Kept(entries, comments)) <= KeyWeight(entries)
    ensures AllSurvive(entries, comments) ==> KeyCounts(Kept(entries, comments)) == KeyCounts(entries)
    ensures !AllSurvive(entries, comments) ==> KeyWeight(Kept(entries, comments)) < KeyWeight(entries)
  {
    if entries != [] {
      hide Kept, KeyCounts, KeyWeight, Dropped, Survives, AllSurvive, Strip;
      var e, tail := entries[0], entries[1..];
      KeptKeys(tail, comments);
      AllSurviveFirst(entries, comments);
      KeptFirst(entries, comments);
      EntryReadBack(e, comments);
      assert entries == [e] + tail;
      WeightFirst(e, tail);
      WeightFirst(Strip(e), Kept(tail, comments));
      assert [] + Kept(tail, comments) == Kept(tail, comments);
      assert |EntryKey(e)| >= 2;
    }
  }

  lemma {:induction false} WeightAppend(a: seq<string>, b: seq<string>)
    ensures KeyWeight(a + b) == KeyWeight(a) + KeyWeight(b)
  {
    if a == [] {
      assert a + b == b;
    } else {
      assert (a + b)[1..] == a[1..] + b;
      WeightAppend(a[1..], b);
    }
  }

  /** One entry taken out. */
  lemma WeightWithout(entries: seq<string>, i: nat)
    requires i < |entries|
    ensures var rest := entries[..i] + entries[i + 1..]; var k := EntryKey(entries[i]);
            KeyWeight(entries) == |k| + KeyWeight(rest) && KeyCounts(entries) == multiset{k} + KeyCounts(rest)
  {
    hide KeyWeight, KeyCounts, EntryKey;
    assert entries == entries[..i] + ([entries[i]] + entries[i + 1..]);
    WeightAppend(entries[..i], [entries[i]] + entries[i + 1..]);
    WeightAppend(entries[..i], entries[i + 1..]);
    KeyCountsAppend(entries[..i], [entries[i]] + entries[i + 1..]);
    KeyCountsAppend(entries[..i], entries[i + 1..]);
    WeightFirst(entries[i], entries[i + 1..]);
  }

  lemma TakeOut(entries: seq<string>, k: string) returns (rest: seq<string>)
    requires k in KeyCounts(entries)
    ensures KeyWeight(entries) == |k| + KeyWeight(rest) && KeyCounts(entries) == multiset{k} + KeyCounts(rest)
  {
    hide KeyWeight, KeyCounts, EntryKey;
    MemberOfKey(entries, k);
    var i :| 0 <= i < |entries| && EntryKey(entries[i]) == k;
    WeightWithout(entries, i);
    rest := entries[..i] + entries[i + 1..];
  }

  lemma {:induction false} IncludedWeighsLess(a: seq<string>, b: seq<string>)
    requires KeyCounts(a) <= KeyCounts(b)
    ensures KeyWeight(a) <= KeyWeight(b)
    decreases |a|
  {
    if a != [] {
      hide KeyCounts, EntryKey, KeyWeight;
      var k, tail := EntryKey(a[0]), a[1..];
      assert a == [a[0]] + tail;
      WeightFirst(a[0], tail);
      assert k in KeyCounts(a);
      var rest := TakeOut(b, k);
      OneLessIncluded(KeyCounts(tail), KeyCounts(rest), k);
      IncludedWeighsLess(tail, rest);
    }
  }

  lemma OneLessIncluded(a: multiset<string>, b: multiset<string>, k: string)
    requires multiset{k} + a <= multiset{k} + b
    ensures a <= b
  {
    forall x ensures a[x] <= b[x] {
      assert (multiset{k} + a)[x] <= (multiset{k} + b)[x];
    }
  }

  lemma BaselineReadBack(entries: seq<string>, comments: bool)
    requires AllSingle(entries)
    ensures Known(Some(BaselineText(entries)), comments) == Kept(entries, comments)
  {
    assert SingleLine("");
    hide SplitLines, SingleLine;
    if entries == [] {
      assert BaselineText(entries) == Unlines([""]) by { assert [""][1..] == [] && Unlines([""]) == "" + "\n" + ""; }
      SplitSingleLines([""]);
      assert Strip("") == "" && |[""][1..]| == 0;
      assert Kept([""], comments) == Kept([""][1..], comments) == [];
    } else {
      UnlinesJoin(entries);
      SplitSingleLines(entries);
    }
  }

  lemma SortMembers(entries: seq<string>)
    ensures forall e :: e in Sort(entries) <==> e in entries
  {
    SortFacts(entries);
    forall e ensures e in Sort(entries) <==> e in entries {
      assert e in Sort(entries) <==> e in multiset(Sort(entries));
      assert e in entries <==> e in multiset(entries);
    }
  }

  lemma NormalizedMembers(violations: seq<string>)
    ensures forall e :: e in Normalized(violations) <==> e in SlashAll(violations)
  {
    DedupeFacts(SlashAll(violations));
    SortMembers(Dedupe(SlashAll(violations)));
  }

  /** What holds of every violation holds of every normalized one, and the other way round. */
  lemma CarriesOver(a: seq<string>, b: seq<string>, comments: bool)
    requires forall e :: e in a <==> e in b
    ensures AllSingle(a) <==> AllSingle(b)
    ensures AllSurvive(a, comments) <==> AllSurvive(b, comments)
  {
    hide SingleLine, Survives;
    forall i | 0 <= i < |a| ensures a[i] in b {}
    forall i | 0 <= i < |b| ensures b[i] in a {}
  }

  /** For every list of single-line violations: right after `--baseline` the gate passes on them
      exactly when each survives, that is starts neither with white space nor with `#` and has a
      colon or no white space at its end. */
  lemma BaselinePassesIff(violations: seq<string>)
    requires AllSingle(SlashAll(violations))
    ensures GatePasses(violations, Some(BaselineText(Normalized(violations))))
            <==> AllSurvive(SlashAll(violations), true)
  {
    hide AllSingle, AllSurvive, KeyCounts, KeyWeight, Kept, Known, Normalized, BaselineText;
    var entries := Normalized(violations);
    NormalizedMembers(violations);
    CarriesOver(SlashAll(violations), entries, true);
    BaselineReadBack(entries, true);
    KeptKeys(entries, true);
    if KeyCounts(entries) <= KeyCounts(Kept(entries, true)) { IncludedWeighsLess(entries, Kept(entries, true)); }
  }

  /** The soft-delete gate, which has no comments, passes right after `--baseline` exactly when
      each violation survives stripping. */
  lemma SoftDeleteBaselinePassesIff(violations: seq<string>)
    requires AllSingle(SlashAll(violations))
    ensures SoftDeletePasses(violations, Some(BaselineText(Sort(SlashAll(violations)))))
            <==> AllSurvive(SlashAll(violations), false)
  {
    hide AllSingle, AllSurvive, KeyCounts, KeyWeight, Kept, Known, Sort, BaselineText;
    var entries := Sort(SlashAll(violations));
    SortMembers(SlashAll(violations));
    CarriesOver(SlashAll(violations), entries, false);
    KeyCountsSort(SlashAll(violations));
    BaselineReadBack(entries, false);
    KeptKeys(entries, false);
    if KeyCounts(entries) <= KeyCounts(Kept(entries, false)) { IncludedWeighsLess(entries, Kept(entries, false)); }
  }

  // ---------------------------------------------------------------- the two gates compared

  function WithoutComments(entries: seq<string>): seq<string> {
    if entries == [] then []
    else (if "#" <= entries[0] then [] else [entries[0]]) + WithoutComments(entries[1..])
  }

  ghost predicate NoComments(entries: seq<string>) {
    forall i :: 0 <= i < |entries| ==> !("#" <= entries[i])
  }

  lemma {:induction false} WithoutCommentsSize(entries: seq<string>)
    ensures NoComments(entries) ==> WithoutComments(entries) == entries
    ensures |WithoutComments(entries)| <= |entries|
    ensures !NoComments(entries) ==> |WithoutComments(entries)| < |entries|
  {
    if entries != [] {
      WithoutCommentsSize(entries[1..]);
      assert NoComments(entries) <==> !("#" <= entries[0]) && NoComments(entries[1..]) by {
        if NoComments(entries) {
          forall i | 0 <= i < |entries[1..]| ensures !("#" <= entries[1..][i]) { assert !("#" <= entries[i + 1]); }
        }
        if !("#" <= entries[0]) && NoComments(entries[1..]) {
          forall i | 0 <= i < |entries| ensures !("#" <= entries[i]) {
            if i > 0 { assert !("#" <= entries[1..][i - 1]); }
          }
        }
      }
    }
  }

  lemma IncludedIsSmaller(a: multiset<string>, b: multiset<string>)
    ensures a <= b ==> |a| <= |b|
  {
    if a <= b { assert b == a + (b - a); }
  }

  lemma LargerCountsDiffer(a: seq<string>, b: seq<string>)
    requires |a| > |b|
    ensures !(KeyCounts(a) <= KeyCounts(b))
  {
    KeyCountsSize(a);
    KeyCountsSize(b);
    IncludedIsSmaller(KeyCounts(a), KeyCounts(b));
  }

  /** The file has no comment lines. */
  ghost predicate CommentFree(file: Option<string>) {
    NoComments(Known(file, false))
  }

  lemma {:induction false} KeptWithoutComments(lines: seq<string>)
    ensures Kept(lines, true) == WithoutComments(Kept(lines, false))
  {
    if lines != [] {
      KeptWithoutComments(lines[1..]);
      var line, rest := Strip(lines[0]), Kept(lines[1..], false);
      if line == "" {
        assert Kept(lines, false) == rest && Kept(lines, true) == Kept(lines[1..], true);
      } else {
        assert Kept(lines, false) == [line] + rest;
        assert ([line] + rest)[1..] == rest;
      }
    }
  }

  lemma CommentFreeReadsTheSame(file: Option<string>)
    requires CommentFree(file)
    ensures Known(file, true) == Known(file, false)
  {
    if file.Some? {
      KeptWithoutComments(SplitLines(file.value));
      WithoutCommentsSize(Known(file, false));
    }
  }

  /** On a baseline without comment lines, what passes the soft-delete gate passes `run_gate`. */
  lemma SoftDeleteIsStricter(violations: seq<string>, file: Option<string>)
    requires CommentFree(file)
    ensures SoftDeletePasses(violations, file) ==> GatePasses(violations, file)
    ensures Distinct(SlashAll(violations)) ==> (SoftDeletePasses(violations, file) <==> GatePasses(violations, file))
  {
    CommentFreeReadsTheSame(file);
    DedupeLowersCounts(SlashAll(violations));
    DedupeSize(SlashAll(violations));
    KeyCountsSort(Dedupe(SlashAll(violations)));
  }

  ghost predicate SameVerdict(violations: seq<string>) {
    forall file :: CommentFree(file) ==> (SoftDeletePasses(violations, file) <==> GatePasses(violations, file))
  }

  lemma DedupedIsShorter(violations: seq<string>)
    requires !Distinct(SlashAll(violations))
    ensures |Normalized(violations)| < |SlashAll(violations)|
  {
    var distinct := Dedupe(SlashAll(violations));
    DedupeSize(SlashAll(violations));
    SortFacts(distinct);
    assert |Sort(distinct)| == |multiset(Sort(distinct))| == |multiset(distinct)| == |distinct|;
  }

  lemma {:induction false} KeptIsNoLonger(entries: seq<string>, comments: bool)
    ensures |Kept(entries, comments)| <= |entries|
  {
    if entries != [] { KeptIsNoLonger(entries[1..], comments); }
  }

  /** With duplicates, the baseline that `run_gate` writes never passes the soft-delete gate, while
      it passes `run_gate` itself whenever every violation survives. */
  lemma DuplicatesTellApart(violations: seq<string>)
    requires AllSingle(SlashAll(violations)) && !Distinct(SlashAll(violations))
    ensures var file := Some(BaselineText(Normalized(violations)));
            && !SoftDeletePasses(violations, file)
            && (GatePasses(violations, file) <==> AllSurvive(SlashAll(violations), true))
  {
    hide AllSingle, AllSurvive, KeyCounts, Kept, Known, Normalized, BaselineText;
    var entries := Normalized(violations);
    NormalizedMembers(violations);
    CarriesOver(SlashAll(violations), entries, true);
    BaselinePassesIff(violations);
    BaselineReadBack(entries, false);
    KeptIsNoLonger(entries, false);
    DedupedIsShorter(violations);
    LargerCountsDiffer(SlashAll(violations), Kept(entries, false));
  }

  /** A key that some line of a baseline without comments has: the path starts neither with
      white space nor with `#`. */
  predicate HasLine(entry: string) {
    UpToColon(entry) == "" || (!IsSpace(UpToColon(entry)[0]) && UpToColon(entry)[0] != '#')
  }

  ghost predicate AllHaveLines(entries: seq<string>) {
    forall i :: 0 <= i < |entries| ==> HasLine(entries[i])
  }

  lemma {:induction false} UpToColonFacts(s: string)
    ensures forall i :: 0 <= i < |UpToColon(s)| ==> UpToColon(s)[i] != ':'
    ensures forall c :: c in UpToColon(s) ==> c in s
    ensures AfterColon(s).Some? ==> forall c :: c in AfterColon(s).value ==> c in s
    ensures UpToColon(s) != "" ==> UpToColon(s)[0] == s[0]
  {
    if s != "" && s[0] != ':' { UpToColonFacts(s[1..]); }
  }

  lemma CodeFacts(e: string)
    ensures Trimmed(CodeOf(e)) && forall c :: c in CodeOf(e) ==> c in e
  {
    hide Strip;
    UpToColonFacts(e);
    if AfterColon(e).Some? {
      var rest := AfterColon(e).value;
      UpToColonFacts(rest);
      if AfterColon(rest).Some? { var a, b := StripIsSlice(AfterColon(rest).value); }
    }
  }

  /** A key is an entry with itself as its key. */
  lemma KeyOfKey(e: string)
    ensures EntryKey(EntryKey(e)) == EntryKey(e)
  {
    hide Strip, UpToColon, AfterColon;
    var path, code := UpToColon(e), CodeOf(e);
    UpToColonFacts(e);
    CodeFacts(e);
    assert EntryKey(e) == path + (":" + (":" + code));
    FirstColon(path, ":" + code);
    FirstColon("", code);
    assert "" + (":" + code) == ":" + code;
    StripTrimmed(code);
  }

  lemma KeyIsSingleLine(e: string)
    requires SingleLine(e)
    ensures SingleLine(EntryKey(e))
  {
    hide UpToColon, CodeOf;
    UpToColonFacts(e);
    CodeFacts(e);
    var key := EntryKey(e);
    forall i | 0 <= i < |key| ensures !IsBreak(key[i]) {
      assert key[i] in UpToColon(e) || key[i] == ':' || key[i] in CodeOf(e);
      if key[i] in e { var k :| 0 <= k < |e| && e[k] == key[i]; }
    }
  }

  lemma KeySurvives(e: string)
    requires HasLine(e)
    ensures Survives(EntryKey(e), true) && !("#" <= Strip(EntryKey(e)))
  {
    hide UpToColon, CodeOf, Strip;
    var key := EntryKey(e);
    assert key[|UpToColon(e)|] == ':';
    assert key[0] == if UpToColon(e) == "" then ':' else UpToColon(e)[0];
    StripKeepsStart(key);
  }

  function KeysOf(entries: seq<string>): (r: seq<string>)
    ensures |r| == |entries| && forall i :: 0 <= i < |r| ==> r[i] == EntryKey(entries[i])
  {
    if entries == [] then [] else [EntryKey(entries[0])] + KeysOf(entries[1..])
  }

  lemma {:induction false} KeysOfCounts(entries: seq<string>)
    ensures KeyCounts(KeysOf(entries)) == KeyCounts(entries)
  {
    hide EntryKey, KeyCounts;
    if entries == [] {
      assert KeysOf(entries) == entries;
    } else {
      KeysOfCounts(entries[1..]);
      KeyOfKey(entries[0]);
      WeightFirst(EntryKey(entries[0]), KeysOf(entries[1..]));
      KeyCountsFirst(entries);
    }
  }

  lemma {:induction false} KeptWithoutHash(entries: seq<string>)
    requires forall i :: 0 <= i < |entries| ==> !("#" <= Strip(entries[i]))
    ensures NoComments(Kept(entries, false))
  {
    hide Strip;
    if entries != [] {
      forall i | 0 <= i < |entries[1..]| ensures !("#" <= Strip(entries[1..][i])) {
        assert !("#" <= Strip(entries[i + 1]));
      }
      KeptWithoutHash(entries[1..]);
      KeptFirst(entries, false);
      var first := if Dropped(entries[0], false) then [] else [Strip(entries[0])];
      var tail := Kept(entries[1..], false);
      forall i | 0 <= i < |first + tail| ensures !("#" <= (first + tail)[i]) {
        if i >= |first| { assert (first + tail)[i] == tail[i - |first|]; }
      }
    }
  }

  /** The baseline that consists of the keys of the entries. */
  lemma KeyBaseline(entries: seq<string>)
    requires AllSingle(entries) && AllHaveLines(entries)
    ensures var file := Some(BaselineText(KeysOf(entries)));
            CommentFree(file) && KeyCounts(Known(file, true)) == KeyCounts(entries)
            && |Known(file, false)| <= |entries|
  {
    hide SingleLine, HasLine, EntryKey, Survives, Strip, KeyCounts, Kept, Known, BaselineText;
    var keys := KeysOf(entries);
    forall i | 0 <= i < |keys|
      ensures SingleLine(keys[i]) && Survives(keys[i], true) && !("#" <= Strip(keys[i]))
    {
      KeyIsSingleLine(entries[i]);
      KeySurvives(entries[i]);
    }
    BaselineReadBack(keys, true);
    BaselineReadBack(keys, false);
    KeptKeys(keys, true);
    KeysOfCounts(entries);
    KeptWithoutHash(keys);
    KeptIsNoLonger(keys, false);
  }

  /** When every key has a line, duplicates make the two gates differ on some baseline. */
  lemma SomeBaselineTellsApart(violations: seq<string>)
    requires AllSingle(SlashAll(violations)) && AllHaveLines(SlashAll(violations))
    requires !Distinct(SlashAll(violations))
    ensures !SameVerdict(violations)
  {
    hide SingleLine, HasLine, KeyCounts, Known, BaselineText, Normalized, KeysOf, CommentFree;
    var entries := Normalized(violations);
    var file := Some(BaselineText(KeysOf(entries)));
    NormalizedMembers(violations);
    forall i | 0 <= i < |entries| ensures SingleLine(entries[i]) && HasLine(entries[i]) {
      assert entries[i] in SlashAll(violations);
    }
    KeyBaseline(entries);
    DedupedIsShorter(violations);
    LargerCountsDiffer(SlashAll(violations), Known(file, false));
    assert GatePasses(violations, file) && !SoftDeletePasses(violations, file);
  }

  lemma {:induction false} KeptStartsPlainly(lines: seq<string>)
    ensures forall e :: e in Kept(lines, false) ==> e != "" && !IsSpace(e[0])
  {
    if lines != [] {
      KeptStartsPlainly(lines[1..]);
      KeptFirst(lines, false);
    }
  }

  /** A violation whose key has no line fails both gates on every such baseline. */
  lemma NoLineFailsBoth(violations: seq<string>, file: Option<string>)
    requires CommentFree(file) && !AllHaveLines(SlashAll(violations))
    ensures !SoftDeletePasses(violations, file) && !GatePasses(violations, file)
  {
    hide KeyCounts, Kept, Normalized, SplitLines;
    var i :| 0 <= i < |SlashAll(violations)| && !HasLine(SlashAll(violations)[i]);
    var e := SlashAll(violations)[i];
    assert e in SlashAll(violations);
    NormalizedMembers(violations);
    KeyOfMember(SlashAll(violations), e);
    KeyOfMember(Normalized(violations), e);
    CommentFreeReadsTheSame(file);
    KeyHasNoLine(e, file);
  }

  lemma KeyStart(e: string)
    ensures EntryKey(e)[0] == if UpToColon(e) == "" then ':' else e[0]
  {
    hide CodeOf;
    UpToColonFacts(e);
  }

  lemma KeyHasNoLine(e: string, file: Option<string>)
    requires CommentFree(file) && !HasLine(e)
    ensures EntryKey(e) !in KeyCounts(Known(file, false))
  {
    hide KeyCounts, Kept, SplitLines, UpToColon, CodeOf, Known, EntryKey;
    var known := Known(file, false);
    KeyStart(e);
    UpToColonFacts(e);
    forall l | l in known ensures EntryKey(l) != EntryKey(e) {
      LineStartsPlainly(file, l);
      KeyStart(l);
    }
    if EntryKey(e) in KeyCounts(known) { MemberOfKey(known, EntryKey(e)); }
  }

  lemma LineStartsPlainly(file: Option<string>, l: string)
    requires CommentFree(file) && l in Known(file, false)
    ensures l != "" && !IsSpace(l[0]) && l[0] != '#'
  {
    hide Kept, SplitLines;
    if file.Some? { KeptStartsPlainly(SplitLines(file.value)); }
    var k :| 0 <= k < |Known(file, false)| && Known(file, false)[k] == l;
    assert !("#" <= l);
  }

  /** For every list of single-line violations: the two gates give the same verdict on every
      baseline without comment lines exactly when the violations are duplicate-free, or the path
      of one of them starts with white space or `#`, so that both gates always fail. */
  lemma SameVerdictIff(violations: seq<string>)
    requires AllSingle(SlashAll(violations))
    ensures SameVerdict(violations)
            <==> Distinct(SlashAll(violations)) || !AllHaveLines(SlashAll(violations))
  {
    hide AllSingle, AllHaveLines, Distinct, CommentFree, SoftDeletePasses, GatePasses;
    if Distinct(SlashAll(violations)) {
      forall file | CommentFree(file)
        ensures SoftDeletePasses(violations, file) <==> GatePasses(violations, file)
      {
        SoftDeleteIsStricter(violations, file);
      }
    } else if AllHaveLines(SlashAll(violations)) {
      SomeBaselineTellsApart(violations);
    } else {
      forall file | CommentFree(file)
        ensures SoftDeletePasses(violations, file) <==> GatePasses(violations, file)
      {
        NoLineFailsBoth(violations, file);
      }
    }
  }
}
