/**
 * What the user-creation schema promises: the name transform works word by
 * word and is idempotent, a submit is accepted exactly when every field rule
 * holds, re-validating an accepted value changes nothing, and a rejected
 * submit reports each field's own first message.
 */
module SchemaProperties {
  import opened Text
  import opened Schema

  // ---------------------------------------------------------------- name

  /** Capitalizing a word that has no space leaves it without a space. */
  lemma CapitalizeKeepsSpaceFree(ws: seq<string>)
    requires forall i :: 0 <= i < |ws| ==> |ws[i]| > 0 && ' ' !in ws[i]
    ensures forall i :: 0 <= i < |CapitalizeAll(ws)| ==> ' ' !in CapitalizeAll(ws)[i]
  {
    var cs := CapitalizeAll(ws);
    forall i | 0 <= i < |cs|
      ensures ' ' !in cs[i]
    {
      assert ws[i][0] in ws[i];
      assert cs[i] == [UpperChar(ws[i][0])] + ws[i][1..];
      assert forall c :: c in ws[i][1..] ==> c in ws[i];
    }
  }

  /**
   * The transformed name has exactly the words of the trimmed input, in
   * order, each with only its first character upper-cased.
   */
  lemma NameWordByWord(name: string)
    requires TransformName(name).Some?
    ensures var ws := Split(Trim(name), ' ');
      var os := Split(TransformName(name).value, ' ');
      Join(ws, ' ') == Trim(name) && |os| == |ws| &&
      forall i :: 0 <= i < |ws| ==> |ws[i]| > 0 && os[i] == [UpperChar(ws[i][0])] + ws[i][1..]
  {
    var ws := Split(Trim(name), ' ');
    JoinSplit(Trim(name), ' ');
    CapitalizeKeepsSpaceFree(ws);
    SplitJoin(CapitalizeAll(ws), ' ');
  }

  /** Upper-casing the first letter twice is upper-casing it once. */
  lemma CapitalizeAllIdempotent(ws: seq<string>)
    requires forall i :: 0 <= i < |ws| ==> |ws[i]| > 0
    ensures CapitalizeAll(CapitalizeAll(ws)) == CapitalizeAll(ws)
  {
    var cs := CapitalizeAll(ws);
    forall i | 0 <= i < |cs|
      ensures Capitalize(cs[i]) == cs[i]
    {
      assert cs[i][0] == UpperChar(ws[i][0]);
      assert UpperChar(cs[i][0]) == cs[i][0];
      assert [cs[i][0]] + cs[i][1..] == cs[i];
    }
  }

  /**
   * Joining the capitalized words of a trimmed string gives a string that
   * is its own trim: its ends are the upper-cased ends of the trimmed string.
   */
  lemma CapitalizedJoinIsTrimmed(t: string)
    requires |t| == 0 || (!IsWhitespace(t[0]) && !IsWhitespace(t[|t| - 1]))
    requires [] !in Split(t, ' ')
    ensures var out := Join(CapitalizeAll(Split(t, ' ')), ' '); Trim(out) == out
  {
    var ws := Split(t, ' ');
    SplitEmpty(' ');
    JoinSplit(t, ' ');
    assert forall i :: 0 <= i < |ws| ==> |ws[i]| > 0;
    assert |t| > 0;
    CapitalizedJoinEnds(ws, t);
    TrimOfTrimmed(Join(CapitalizeAll(ws), ' '));
  }

  /** Capitalizing the words of a join keeps its ends free of whitespace. */
  lemma CapitalizedJoinEnds(ws: seq<string>, t: string)
    requires |ws| > 0 && forall i :: 0 <= i < |ws| ==> |ws[i]| > 0
    requires Join(ws, ' ') == t && |t| > 0 && !IsWhitespace(t[0]) && !IsWhitespace(t[|t| - 1])
    ensures var out := Join(CapitalizeAll(ws), ' ');
      |out| > 0 && !IsWhitespace(out[0]) && !IsWhitespace(out[|out| - 1])
  {
    var n := |ws| - 1;
    var cs := CapitalizeAll(ws);
    JoinFirst(ws, ' ');
    JoinLast(ws, ' ');
    CapitalizeKeepsWhitespace(ws[0]);
    CapitalizeKeepsWhitespace(ws[n]);
    assert cs[n] == Capitalize(ws[n]);
    JoinFirst(cs, ' ');
    JoinLast(cs, ' ');
  }

  /** Capitalizing a word keeps its length and which of its characters are whitespace. */
  lemma CapitalizeKeepsWhitespace(w: string)
    requires |w| > 0
    ensures |Capitalize(w)| == |w|
    ensures forall i :: 0 <= i < |w| ==> (IsWhitespace(Capitalize(w)[i]) <==> IsWhitespace(w[i]))
  {
  }

  /** The capitalized words of a trimmed string are the words of their own join's trim. */
  lemma CapitalizedWords(t: string)
    requires |t| == 0 || (!IsWhitespace(t[0]) && !IsWhitespace(t[|t| - 1]))
    requires [] !in Split(t, ' ')
    ensures var cs := CapitalizeAll(Split(t, ' '));
      Split(Trim(Join(cs, ' ')), ' ') == cs && [] !in cs
  {
    var ws := Split(t, ' ');
    CapitalizedJoinIsTrimmed(t);
    CapitalizeKeepsSpaceFree(ws);
    CapitalizedNonEmpty(ws);
    SplitJoin(CapitalizeAll(ws), ' ');
  }

  /** Capitalizing non-empty words gives non-empty words. */
  lemma CapitalizedNonEmpty(ws: seq<string>)
    requires [] !in ws
    ensures [] !in CapitalizeAll(ws)
  {
    var cs := CapitalizeAll(ws);
    forall i | 0 <= i < |cs| ensures cs[i] != [] { assert ws[i] in ws; }
  }

  /** Transforming an already transformed name gives it back unchanged. */
  lemma NameIdempotent(name: string)
    requires TransformName(name).Some?
    ensures TransformName(TransformName(name).value) == TransformName(name)
  {
    var ws := Split(Trim(name), ' ');
    var out := Join(CapitalizeAll(ws), ' ');
    assert TransformName(name) == Some(out);
    CapitalizedWords(Trim(name));
    CapitalizeAllIdempotent(ws);
  }

  /** A name made only of whitespace passes the required rule and then throws. */
  lemma BlankNameThrows(v: FormValues, isEmail: string -> bool)
    requires |v.name| > 0
    requires forall k :: 0 <= k < |v.name| ==> IsWhitespace(v.name[k])
    ensures Validate(v, isEmail) == Thrown
  {
    assert Trim(v.name) == [];
    assert Split(Trim(v.name), ' ') == [[]];
  }

  /** Two adjacent spaces inside the trimmed name make an empty word, and the submit throws. */
  lemma AdjacentSpacesThrow(v: FormValues, isEmail: string -> bool, k: nat)
    requires k + 1 < |Trim(v.name)| && Trim(v.name)[k] == ' ' && Trim(v.name)[k + 1] == ' '
    ensures Validate(v, isEmail) == Thrown
  {
    AdjacentSeparatorsGiveEmptyPiece(Trim(v.name), ' ', k);
  }

  // ---------------------------------------------------- accepted values

  /**
   * A submit is accepted exactly when every rule holds, and then the name is
   * transformed, the email is lower-cased and ends with the allowed suffix,
   * and the password and rows are passed through unchanged.
   */
  lemma AcceptedIffAdmissible(v: FormValues, isEmail: string -> bool)
    ensures Validate(v, isEmail).Accepted? <==> Admissible(v, isEmail)
    ensures Validate(v, isEmail).Accepted? ==>
      var out := Validate(v, isEmail).values;
      Some(out.name) == TransformName(v.name) &&
      out.email == ToLower(v.email) && NoAsciiUpper(out.email) && EndsWith(out.email, AllowedSuffix) &&
      out.password == v.password && out.techs == v.techs
  {
    ToLowerIsLower(v.email);
  }

  /** Validating the output of an accepted submit accepts it again, unchanged. */
  lemma ValidateIdempotent(v: FormValues, isEmail: string -> bool)
    requires Validate(v, isEmail).Accepted?
    requires isEmail(Validate(v, isEmail).values.email)
    ensures Validate(Validate(v, isEmail).values, isEmail) == Validate(v, isEmail)
  {
    var out := Validate(v, isEmail).values;
    AcceptedIffAdmissible(v, isEmail);
    NameIdempotent(v.name);
    ToLowerIsLower(v.email);
    var t := TransformName(out.name).value;
    assert Split(Trim(out.name), ' ') == Split(Trim(t), ' ');
    assert |out.name| > 0 by {
      NameWordByWord(v.name);
      var ws := Split(Trim(v.name), ' ');
      JoinSplit(out.name, ' ');
      assert Split(out.name, ' ')[0] != [];
      JoinFirst(Split(out.name, ' '), ' ');
    }
    AcceptedIffAdmissible(out, isEmail);
  }

  // ---------------------------------------------------- rejected values

  /** No issue in a group names the given path. */
  predicate NoneAt(issues: seq<Issue>, p: Path) {
    forall j :: 0 <= j < |issues| ==> issues[j].path != p
  }

  lemma NoneAtConcat(a: seq<Issue>, b: seq<Issue>, p: Path)
    requires NoneAt(a, p) && NoneAt(b, p)
    ensures NoneAt(a + b, p)
  {
    assert forall j :: |a| <= j < |a + b| ==> (a + b)[j] == b[j - |a|];
  }

  /** A rejected submit carries the resolver's map of the issues in declaration order. */
  lemma RejectedErrorsAreFirstErrors(v: FormValues, isEmail: string -> bool)
    requires Validate(v, isEmail).Rejected?
    ensures Validate(v, isEmail).errors == FirstErrors(Issues(v, isEmail))
  {
  }

  /**
   * When the issues with path `p` are exactly those at positions `lo..hi`,
   * the error map holds `p` exactly when that block is non-empty, with the
   * message of the block's first issue.
   */
  lemma BlockErrors(all: seq<Issue>, lo: nat, hi: nat, p: Path)
    requires lo <= hi <= |all|
    requires forall j :: 0 <= j < |all| ==> (all[j].path == p <==> lo <= j < hi)
    ensures var m := FirstErrors(all); (p in m <==> lo < hi) && (lo < hi ==> m[p] == all[lo].message)
  {
    if lo < hi {
      assert IsFirstAt(all, lo);
    }
  }

  /** The tech rules report only at `techs` (first, for a short list) and at the rows. */
  lemma TechsIssuesPaths(techs: seq<Tech>)
    ensures var ts := TechsIssues(techs); var lead := if |techs| < MinTechs then 1 else 0;
      |ts| >= lead &&
      forall j :: 0 <= j < |ts| ==>
        !ts[j].path.Name? && !ts[j].path.Email? && !ts[j].path.Password? &&
        (ts[j].path.Techs? <==> j < lead) && (j < lead ==> ts[j].message == TooFewTechs)
  {
    var es := EntriesIssues(techs, 0);
    var ts := TechsIssues(techs);
    var lead := if |techs| < MinTechs then 1 else 0;
    forall j | lead <= j < |ts|
      ensures !ts[j].path.Name? && !ts[j].path.Email? && !ts[j].path.Password? && !ts[j].path.Techs?
    {
      assert ts[j] == es[j - lead];
      assert DescribesEntry(techs, 0, es[j - lead]);
    }
  }

  /** Some issue in a group names the given path. */
  predicate NamesPath(issues: seq<Issue>, p: Path) {
    exists j :: 0 <= j < |issues| && issues[j].path == p
  }

  /** Every issue in a group names the given path. */
  predicate AllAt(issues: seq<Issue>, p: Path) {
    forall j :: 0 <= j < |issues| ==> issues[j].path == p
  }

  /**
   * The issues at each top-level path sit in one block of `all`: the name's
   * before `n`, the email's in `n..e`, the password's in `e..p` and the
   * list's own in `p..t`.
   */
  ghost predicate Layout(all: seq<Issue>, n: nat, e: nat, p: nat, t: nat) {
    n <= e <= p <= t <= |all| &&
    (forall j :: 0 <= j < |all| ==> (all[j].path == Name <==> j < n)) &&
    (forall j :: 0 <= j < |all| ==> (all[j].path == Email <==> n <= j < e)) &&
    (forall j :: 0 <= j < |all| ==> (all[j].path == Password <==> e <= j < p)) &&
    (forall j :: 0 <= j < |all| ==> (all[j].path == Techs <==> p <= j < t))
  }

  /** The positions of four consecutive groups of issues in their concatenation. */
  lemma FourBlocks(n: seq<Issue>, em: seq<Issue>, pw: seq<Issue>, ts: seq<Issue>, lead: nat)
    requires AllAt(n, Name) && AllAt(em, Email) && AllAt(pw, Password)
    requires lead <= |ts|
    requires forall j :: 0 <= j < |ts| ==>
      !ts[j].path.Name? && !ts[j].path.Email? && !ts[j].path.Password? && (ts[j].path.Techs? <==> j < lead)
    ensures var all, e, p := n + em + pw + ts, |n| + |em|, |n| + |em| + |pw|;
      Layout(all, |n|, e, p, p + lead) &&
      (|n| > 0 ==> all[0] == n[0]) && (|em| > 0 ==> all[|n|] == em[0]) && (|pw| > 0 ==> all[e] == pw[0]) &&
      (lead > 0 ==> all[p] == ts[0])
  {
    var all := n + em + pw + ts;
    var e, p := |n| + |em|, |n| + |em| + |pw|;
    forall j | 0 <= j < |all|
      ensures j < |n| ==> all[j] == n[j]
      ensures |n| <= j < e ==> all[j] == em[j - |n|]
      ensures e <= j < p ==> all[j] == pw[j - e]
      ensures p <= j ==> all[j] == ts[j - p]
    {
    }
  }

  /**
   * The resolver's map of four consecutive groups of issues, one group per
   * top-level path: the name and email paths have an entry exactly when
   * their group is non-empty, with the message of the group's first issue.
   */
  lemma FrontBlockErrors(n: seq<Issue>, em: seq<Issue>, pw: seq<Issue>, ts: seq<Issue>, lead: nat)
    requires AllAt(n, Name) && AllAt(em, Email) && AllAt(pw, Password)
    requires lead <= |ts|
    requires forall j :: 0 <= j < |ts| ==>
      !ts[j].path.Name? && !ts[j].path.Email? && !ts[j].path.Password? && (ts[j].path.Techs? <==> j < lead)
    ensures var m := FirstErrors(n + em + pw + ts);
      (Name in m <==> |n| > 0) && (|n| > 0 ==> m[Name] == n[0].message) &&
      (Email in m <==> |em| > 0) && (|em| > 0 ==> m[Email] == em[0].message)
  {
    var all := n + em + pw + ts;
    FourBlocks(n, em, pw, ts, lead);
    BlockErrors(all, 0, |n|, Name);
    BlockErrors(all, |n|, |n| + |em|, Email);
  }

  /** The same, for the password path and the list's own path. */
  lemma BackBlockErrors(n: seq<Issue>, em: seq<Issue>, pw: seq<Issue>, ts: seq<Issue>, lead: nat)
    requires AllAt(n, Name) && AllAt(em, Email) && AllAt(pw, Password)
    requires lead <= |ts|
    requires forall j :: 0 <= j < |ts| ==>
      !ts[j].path.Name? && !ts[j].path.Email? && !ts[j].path.Password? && (ts[j].path.Techs? <==> j < lead)
    ensures var m := FirstErrors(n + em + pw + ts);
      (Password in m <==> |pw| > 0) && (|pw| > 0 ==> m[Password] == pw[0].message) &&
      (Techs in m <==> lead > 0) && (lead > 0 ==> m[Techs] == ts[0].message)
  {
    var all := n + em + pw + ts;
    var p := |n| + |em| + |pw|;
    FourBlocks(n, em, pw, ts, lead);
    BlockErrors(all, |n| + |em|, p, Password);
    BlockErrors(all, p, p + lead, Techs);
  }

  /**
   * The error map holds, for each top-level field, an entry exactly when
   * that field breaks one of its own rules, and the message is that of the
   * first rule it breaks; the other fields do not interfere.
   */
  predicate FieldErrorsAsRules(v: FormValues, isEmail: string -> bool, e: map<Path, string>) {
    (Name in e <==> |v.name| == 0) && (Name in e ==> e[Name] == NameRequired) &&
    (Email in e <==> EmailIssues(v.email, isEmail) != []) &&
    (Email in e ==>
      e[Email] == (if |v.email| == 0 then EmailRequired else if !isEmail(v.email) then EmailMalformed else EmailNotGoogle)) &&
    (Password in e <==> |v.password| < MinPasswordLength) &&
    (Password in e ==> e[Password] == PasswordTooShort) &&
    (Techs in e <==> |v.techs| < MinTechs) && (Techs in e ==> e[Techs] == TooFewTechs)
  }

  /** A rejected submit's error map reports each top-level field by its own rules. */
  lemma RejectedFieldErrors(v: FormValues, isEmail: string -> bool)
    requires Validate(v, isEmail).Rejected?
    ensures FieldErrorsAsRules(v, isEmail, Validate(v, isEmail).errors)
  {
    RejectedErrorsAreFirstErrors(v, isEmail);
    FieldErrors(v, isEmail);
  }

  /** The resolver's map of all issues, field by field. */
  lemma FieldErrors(v: FormValues, isEmail: string -> bool)
    ensures FieldErrorsAsRules(v, isEmail, FirstErrors(Issues(v, isEmail)))
  {
    var n, em, pw, ts := NameIssues(v.name), EmailIssues(v.email, isEmail), PasswordIssues(v.password), TechsIssues(v.techs);
    assert Issues(v, isEmail) == n + em + pw + ts;
    TechsIssuesPaths(v.techs);
    var lead := if |v.techs| < MinTechs then 1 else 0;
    FrontBlockErrors(n, em, pw, ts, lead);
    BackBlockErrors(n, em, pw, ts, lead);
  }



  /**
   * When the issues before `rest` never name `p`, the error map holds `p`
   * exactly when `rest` has an issue at `p`, with the message of one of them.
   */
  lemma TailErrors(front: seq<Issue>, rest: seq<Issue>, p: Path)
    requires NoneAt(front, p)
    ensures var m := FirstErrors(front + rest);
      (p in m <==> exists j :: 0 <= j < |rest| && rest[j].path == p) &&
      (p in m ==> Issue(p, m[p]) in rest)
  {
    var all := front + rest;
    assert forall j :: 0 <= j < |rest| ==> all[|front| + j] == rest[j];
    var m := FirstErrors(all);
    if p in m {
      assert Issue(p, m[p]) in all;
      var j :| 0 <= j < |all| && all[j] == Issue(p, m[p]);
      assert all[j] == rest[j - |front|];
    }
  }

  /** The issues before the row issues never name a row. */
  lemma FrontNamesNoRow(v: FormValues, isEmail: string -> bool, p: Path)
    requires p.TechTitle? || p.TechKnowledge?
    ensures var front := NameIssues(v.name) + EmailIssues(v.email, isEmail) + PasswordIssues(v.password) +
        (if |v.techs| < MinTechs then [Issue(Techs, TooFewTechs)] else []);
      NoneAt(front, p)
  {
    var n, em, pw := NameIssues(v.name), EmailIssues(v.email, isEmail), PasswordIssues(v.password);
    var lead := if |v.techs| < MinTechs then [Issue(Techs, TooFewTechs)] else [];
    assert NoneAt(n, p) && NoneAt(em, p) && NoneAt(pw, p) && NoneAt(lead, p);
    NoneAtConcat(n, em, p);
    NoneAtConcat(n + em, pw, p);
    NoneAtConcat(n + em + pw, lead, p);
  }

  /** The row issues come last in a submit, after issues that never name a row. */
  lemma RowIssuesComeLast(v: FormValues, isEmail: string -> bool, p: Path)
    requires p.TechTitle? || p.TechKnowledge?
    ensures var front := NameIssues(v.name) + EmailIssues(v.email, isEmail) + PasswordIssues(v.password) +
        (if |v.techs| < MinTechs then [Issue(Techs, TooFewTechs)] else []);
      Issues(v, isEmail) == front + EntriesIssues(v.techs, 0) && NoneAt(front, p)
  {
    FrontNamesNoRow(v, isEmail, p);
  }

  /** An issue among the row issues describes a broken rule of its row. */
  lemma RowIssueDescribes(techs: seq<Tech>, issue: Issue)
    requires issue in EntriesIssues(techs, 0)
    ensures DescribesEntry(techs, 0, issue)
  {
    var es := EntriesIssues(techs, 0);
    var j :| 0 <= j < |es| && es[j] == issue;
  }

  /** An issue in a group names its path there. */
  lemma InNames(issues: seq<Issue>, issue: Issue)
    requires issue in issues
    ensures NamesPath(issues, issue.path)
  {
    var j :| 0 <= j < |issues| && issues[j] == issue;
  }

  /**
   * For a row path, the error map holds an entry exactly when the row issues
   * name that path, and the message is one of theirs.
   */
  lemma RowErrors(v: FormValues, isEmail: string -> bool, p: Path)
    requires p.TechTitle? || p.TechKnowledge?
    ensures var e := FirstErrors(Issues(v, isEmail)); var es := EntriesIssues(v.techs, 0);
      (p in e <==> NamesPath(es, p)) && (p in e ==> Issue(p, e[p]) in es)
  {
    RowIssuesComeLast(v, isEmail, p);
    var front := NameIssues(v.name) + EmailIssues(v.email, isEmail) + PasswordIssues(v.password) +
      (if |v.techs| < MinTechs then [Issue(Techs, TooFewTechs)] else []);
    TailErrors(front, EntriesIssues(v.techs, 0), p);
  }

  /** The error map holds a title error for row `k` exactly when that row's title is empty. */
  predicate TitleErrorAsRule(techs: seq<Tech>, k: nat, e: map<Path, string>) {
    (TechTitle(k) in e <==> k < |techs| && techs[k].title == []) &&
    (TechTitle(k) in e ==> e[TechTitle(k)] == TitleRequired)
  }

  /** A rejected submit's error map reports row `k`'s title by its rule. */
  lemma RejectedTitleErrors(v: FormValues, isEmail: string -> bool, k: nat)
    requires Validate(v, isEmail).Rejected?
    ensures TitleErrorAsRule(v.techs, k, Validate(v, isEmail).errors)
  {
    RejectedErrorsAreFirstErrors(v, isEmail);
    TitleErrors(v, isEmail, k);
  }

  lemma TitleErrors(v: FormValues, isEmail: string -> bool, k: nat)
    ensures TitleErrorAsRule(v.techs, k, FirstErrors(Issues(v, isEmail)))
  {
    var p, e := TechTitle(k), FirstErrors(Issues(v, isEmail));
    RowErrors(v, isEmail, p);
    if p in e {
      RowIssueDescribes(v.techs, Issue(p, e[p]));
    }
    if k < |v.techs| && v.techs[k].title == [] {
      ReportsEntry(v.techs, 0, k);
      InNames(EntriesIssues(v.techs, 0), Issue(p, TitleRequired));
    }
  }

  /**
   * The error map holds a knowledge error for row `k` exactly when that
   * row's knowledge lies outside [1, 100], with the message of the bound it
   * crosses.
   */
  predicate KnowledgeErrorAsRule(techs: seq<Tech>, k: nat, e: map<Path, string>) {
    (TechKnowledge(k) in e <==> k < |techs| && !(MinKnowledge <= techs[k].knowledge <= MaxKnowledge)) &&
    (TechKnowledge(k) in e ==>
      e[TechKnowledge(k)] == if techs[k].knowledge < MinKnowledge then KnowledgeBelow else KnowledgeAbove)
  }

  /** A rejected submit's error map reports row `k`'s knowledge by its bounds. */
  lemma RejectedKnowledgeErrors(v: FormValues, isEmail: string -> bool, k: nat)
    requires Validate(v, isEmail).Rejected?
    ensures KnowledgeErrorAsRule(v.techs, k, Validate(v, isEmail).errors)
  {
    RejectedErrorsAreFirstErrors(v, isEmail);
    KnowledgeErrors(v, isEmail, k);
  }

  lemma KnowledgeErrors(v: FormValues, isEmail: string -> bool, k: nat)
    ensures KnowledgeErrorAsRule(v.techs, k, FirstErrors(Issues(v, isEmail)))
  {
    var p, e := TechKnowledge(k), FirstErrors(Issues(v, isEmail));
    RowErrors(v, isEmail, p);
    if p in e {
      RowIssueDescribes(v.techs, Issue(p, e[p]));
    }
    if k < |v.techs| && !(MinKnowledge <= v.techs[k].knowledge <= MaxKnowledge) {
      ReportsEntry(v.techs, 0, k);
      var m := if v.techs[k].knowledge < MinKnowledge then KnowledgeBelow else KnowledgeAbove;
      InNames(EntriesIssues(v.techs, 0), Issue(p, m));
    }
  }

  /**
   * A submit whose only broken rules are knowledge bounds is rejected, yet
   * the page displays no message: every entry of its error map is at a
   * knowledge path, which has no message element.
   */
  lemma SilentKnowledgeRejection(v: FormValues, isEmail: string -> bool, k: nat)
    requires |v.name| > 0 && [] !in Split(Trim(v.name), ' ')
    requires EmailIssues(v.email, isEmail) == [] && |v.password| >= MinPasswordLength
    requires |v.techs| >= MinTechs && forall i :: 0 <= i < |v.techs| ==> v.techs[i].title != []
    requires k < |v.techs| && !(MinKnowledge <= v.techs[k].knowledge <= MaxKnowledge)
    ensures Validate(v, isEmail).Rejected?
    ensures Displayed(Validate(v, isEmail).errors) == map[]
  {
    assert !EntryValid(v.techs[k]);
    var es := EntriesIssues(v.techs, 0);
    assert Issues(v, isEmail) == es;
    var e := FirstErrors(es);
    forall p | p in e
      ensures !Rendered(p)
    {
      RowIssueDescribes(v.techs, Issue(p, e[p]));
    }
  }

  // ------------------------------------------------------------ scenarios

  lemma ScenarioWords()
    ensures Trim("joão silva") == "joão silva"
    ensures Split("joão silva", ' ') == ["joão", "silva"]
  {
    TrimOfTrimmed("joão silva");
    assert "joão silva" == "joão" + [' '] + "silva";
    TwoWords("joão", "silva");
  }

  /** Two space-free words joined by one space split back into those words. */
  lemma TwoWords(a: string, b: string)
    requires ' ' !in a && ' ' !in b
    ensures Split(a + [' '] + b, ' ') == [a, b]
  {
    SplitWord(b, ' ');
    SplitPeel(a, ' ', b);
  }

  lemma ScenarioCapitals()
    ensures CapitalizeAll(["joão", "silva"]) == ["João", "Silva"]
    ensures Join(["João", "Silva"], ' ') == "João Silva"
  {
    assert UpperChar('j') == 'J' && UpperChar('s') == 'S';
    assert Capitalize("joão") == "João";
    assert Capitalize("silva") == "Silva";
  }

  /** A two-word name has each word capitalized. */
  lemma NameScenario()
    ensures TransformName("joão silva") == Some("João Silva")
  {
    ScenarioWords();
    ScenarioCapitals();
    var ws := Split(Trim("joão silva"), ' ');
    assert ws == ["joão", "silva"];
    assert ws[0] != [] && ws[1] != [];
    assert [] !in ws;
  }

  /** An upper-case Google address is accepted lower-cased; another domain is refused. */
  lemma EmailScenarios(isEmail: string -> bool)
    requires isEmail("USER@GMAIL.COM") && isEmail("user@hotmail.com")
    ensures EmailIssues("USER@GMAIL.COM", isEmail) == [] && ToLower("USER@GMAIL.COM") == "user@gmail.com"
    ensures EmailIssues("user@hotmail.com", isEmail) == [Issue(Email, EmailNotGoogle)]
  {
    assert ToLower("USER@GMAIL.COM") == "user@gmail.com";
    assert ToLower("user@hotmail.com") == "user@hotmail.com";
    assert "user@hotmail.com"[6..][0] != AllowedSuffix[0];
  }

  /** Lists of zero and one row are too short; two valid rows pass. */
  lemma TechsScenarios()
    ensures TechsIssues([]) == [Issue(Techs, TooFewTechs)]
    ensures TechsIssues([Tech("Go", 50)]) == [Issue(Techs, TooFewTechs)]
    ensures TechsIssues([Tech("Go", 50), Tech("Dafny", 80)]) == []
  {
    EntriesIssuesEmpty([Tech("Go", 50)], 0);
    EntriesIssuesEmpty([Tech("Go", 50), Tech("Dafny", 80)], 0);
  }

  /** Knowledge 1 and 100 pass; 0 and 101 fail at the row's knowledge path. */
  lemma KnowledgeBounds(i: nat, title: string)
    requires |title| > 0
    ensures EntryIssues(i, Tech(title, 1)) == [] && EntryIssues(i, Tech(title, 100)) == []
    ensures EntryIssues(i, Tech(title, 0)) == [Issue(TechKnowledge(i), KnowledgeBelow)]
    ensures EntryIssues(i, Tech(title, 101)) == [Issue(TechKnowledge(i), KnowledgeAbove)]
  {
  }
}
