/**
 * The user-creation form schema: the per-field rules and transforms the
 * schema object declares, the order in which it reports issues, and the
 * resolver that turns those issues into one message per field path.
 */
module Schema {
  import opened Text

  datatype Option<T> = None | Some(value: T)

  /** One row of the technology list, with `knowledge` already coerced to a number. */
  datatype Tech = Tech(title: string, knowledge: int)

  datatype FormValues = FormValues(name: string, email: string, password: string, techs: seq<Tech>)

  /** Where an issue is reported: a top-level field, or a sub-field of one row. */
  datatype Path = Name | Email | Password | Techs | TechTitle(index: nat) | TechKnowledge(index: nat)

  datatype Issue = Issue(path: Path, message: string)

  /**
   * The result of a submit: the transformed values, the resolver's error
   * map, or an exception thrown out of the name transform.
   */
  datatype Outcome = Accepted(values: FormValues) | Rejected(errors: map<Path, string>) | Thrown

  const NameRequired := "O nome é obrigatório"
  const EmailRequired := "O e-mail é obrigatório"
  const EmailMalformed := "Formato de e-mail inválido"
  const EmailNotGoogle := "O e-mail precisa ser da Google"
  const PasswordTooShort := "A senha precisa de no mínimo 6 caracteres"
  const TitleRequired := "O título é obrigatório"
  const TooFewTechs := "Insira pelo menos 2 tecnologias"
  // the schema library's default messages for the unlabelled number bounds
  const KnowledgeBelow := "Number must be greater than or equal to 1"
  const KnowledgeAbove := "Number must be less than or equal to 100"

  const AllowedSuffix := "@gmail.com"
  const MinPasswordLength := 6
  const MinTechs := 2
  const MinKnowledge := 1
  const MaxKnowledge := 100

  // ---------------------------------------------------------------- name

  /** `word[0].toLocaleUpperCase().concat(word.substring(1))`, defined only on a non-empty word. */
  function Capitalize(w: string): (c: string)
    requires |w| > 0
    ensures UpcasedFrom(c, w)
    ensures forall i :: 1 <= i < |w| ==> c[i] == w[i]
    ensures IsAsciiLower(w[0]) ==> IsAsciiUpper(c[0])
    ensures !IsAsciiLower(w[0]) ==> c == w
  {
    [UpperChar(w[0])] + w[1..]
  }

  function CapitalizeAll(ws: seq<string>): (cs: seq<string>)
    requires forall i :: 0 <= i < |ws| ==> |ws[i]| > 0
    ensures |cs| == |ws|
    ensures forall i :: 0 <= i < |ws| ==> cs[i] == Capitalize(ws[i])
  {
    seq(|ws|, i requires 0 <= i < |ws| => Capitalize(ws[i]))
  }

  /** Capitalizing every piece of a join changes nothing but the case of some letters. */
  lemma {:induction false} CapitalizedJoinUpcased(ws: seq<string>, sep: char)
    requires forall i :: 0 <= i < |ws| ==> |ws[i]| > 0
    ensures UpcasedFrom(Join(CapitalizeAll(ws), sep), Join(ws, sep))
    decreases |ws|
  {
    if |ws| > 1 {
      var cs := CapitalizeAll(ws);
      assert cs[1..] == CapitalizeAll(ws[1..]);
      CapitalizedJoinUpcased(ws[1..], sep);
      UpcasedConcat(cs[0], ws[0], [sep], [sep]);
      UpcasedConcat(cs[0] + [sep], ws[0] + [sep], Join(cs[1..], sep), Join(ws[1..], sep));
    }
  }

  /**
   * The name transform: trim, split on single spaces, capitalize each word,
   * join with single spaces. `None` stands for the TypeError thrown when a
   * word is empty (`word[0]` is undefined).
   */
  function TransformName(name: string): (r: Option<string>)
    ensures r.None? <==> [] in Split(Trim(name), ' ')
    ensures r.Some? ==> UpcasedFrom(r.value, Trim(name))
  {
    var words := Split(Trim(name), ' ');
    if [] in words then None
    else
      CapitalizedJoinUpcased(words, ' ');
      JoinSplit(Trim(name), ' ');
      Some(Join(CapitalizeAll(words), ' '))
  }

  /** The required rule: one issue at the name path exactly when the name is empty. */
  function NameIssues(name: string): (r: seq<Issue>)
    ensures r == [] <==> |name| > 0
    ensures forall j :: 0 <= j < |r| ==> r[j] == Issue(Name, NameRequired)
  {
    if |name| == 0 then [Issue(Name, NameRequired)] else []
  }

  // --------------------------------------------------------------- email

  /**
   * The three email rules in declaration order. Each runs even when an
   * earlier one failed; the domain rule sees the lower-cased address.
   * `isEmail` is the library's email-format test.
   */
  function EmailIssues(email: string, isEmail: string -> bool): (r: seq<Issue>)
    ensures r == [] <==> |email| > 0 && isEmail(email) && EndsWith(ToLower(email), AllowedSuffix)
    ensures forall j :: 0 <= j < |r| ==> r[j].path == Email
    ensures |email| == 0 ==> r[0] == Issue(Email, EmailRequired)
    ensures |email| > 0 && !isEmail(email) ==> r[0] == Issue(Email, EmailMalformed)
    ensures |email| > 0 && isEmail(email) && !EndsWith(ToLower(email), AllowedSuffix) ==>
      r == [Issue(Email, EmailNotGoogle)]
  {
    (if |email| == 0 then [Issue(Email, EmailRequired)] else []) +
    (if !isEmail(email) then [Issue(Email, EmailMalformed)] else []) +
    (if !EndsWith(ToLower(email), AllowedSuffix) then [Issue(Email, EmailNotGoogle)] else [])
  }

  // ------------------------------------------------------------ password

  function PasswordIssues(password: string): (r: seq<Issue>)
    ensures r == [] <==> |password| >= MinPasswordLength
    ensures forall j :: 0 <= j < |r| ==> r[j] == Issue(Password, PasswordTooShort)
  {
    if |password| < MinPasswordLength then [Issue(Password, PasswordTooShort)] else []
  }

  // --------------------------------------------------------------- techs

  predicate EntryValid(t: Tech) {
    |t.title| > 0 && MinKnowledge <= t.knowledge <= MaxKnowledge
  }

  /** What an issue about row `k` may say, given the rows. */
  predicate DescribesEntry(techs: seq<Tech>, from: nat, issue: Issue) {
    match issue.path
    case TechTitle(k) =>
      from <= k < |techs| && techs[k].title == [] && issue.message == TitleRequired
    case TechKnowledge(k) =>
      from <= k < |techs| &&
      ((techs[k].knowledge < MinKnowledge && issue.message == KnowledgeBelow) ||
       (techs[k].knowledge > MaxKnowledge && issue.message == KnowledgeAbove))
    case _ => false
  }

  /** The issues of row `i`: title first, then the two bounds of knowledge. */
  function EntryIssues(i: nat, t: Tech): (r: seq<Issue>)
    ensures r == [] <==> EntryValid(t)
  {
    (if |t.title| == 0 then [Issue(TechTitle(i), TitleRequired)] else []) +
    (if t.knowledge < MinKnowledge then [Issue(TechKnowledge(i), KnowledgeBelow)] else []) +
    (if t.knowledge > MaxKnowledge then [Issue(TechKnowledge(i), KnowledgeAbove)] else [])
  }

  /** Issues that describe rows from `from + 1` on, after those of row `from`, describe rows from `from` on. */
  lemma DescribesStep(techs: seq<Tech>, from: nat, rest: seq<Issue>)
    requires from < |techs|
    requires forall j :: 0 <= j < |rest| ==> DescribesEntry(techs, from + 1, rest[j])
    ensures var r := EntryIssues(from, techs[from]) + rest;
      forall j :: 0 <= j < |r| ==> DescribesEntry(techs, from, r[j])
  {
    var head := EntryIssues(from, techs[from]);
    var r := head + rest;
    forall j | 0 <= j < |r|
      ensures DescribesEntry(techs, from, r[j])
    {
      if j >= |head| {
        assert r[j] == rest[j - |head|];
      }
    }
  }

  /** The issues of rows `from..`, row by row. */
  function EntriesIssues(techs: seq<Tech>, from: nat): (r: seq<Issue>)
    requires from <= |techs|
    ensures forall j :: 0 <= j < |r| ==> DescribesEntry(techs, from, r[j])
    decreases |techs| - from
  {
    if from == |techs| then []
    else
      var rest := EntriesIssues(techs, from + 1);
      DescribesStep(techs, from, rest);
      EntryIssues(from, techs[from]) + rest
  }

  /** Every broken rule of row `k` has its issue among the issues of the rows from `from` on. */
  lemma {:induction false} ReportsEntry(techs: seq<Tech>, from: nat, k: nat)
    requires from <= k < |techs|
    ensures techs[k].title == [] ==> Issue(TechTitle(k), TitleRequired) in EntriesIssues(techs, from)
    ensures techs[k].knowledge < MinKnowledge ==> Issue(TechKnowledge(k), KnowledgeBelow) in EntriesIssues(techs, from)
    ensures techs[k].knowledge > MaxKnowledge ==> Issue(TechKnowledge(k), KnowledgeAbove) in EntriesIssues(techs, from)
    decreases k - from
  {
    var head := EntryIssues(from, techs[from]);
    var rest := EntriesIssues(techs, from + 1);
    assert EntriesIssues(techs, from) == head + rest;
    if from < k {
      ReportsEntry(techs, from + 1, k);
    }
  }

  /** No row issue from `from` on exactly when every row from there is valid. */
  lemma EntriesIssuesEmpty(techs: seq<Tech>, from: nat)
    requires from <= |techs|
    ensures EntriesIssues(techs, from) == [] <==> forall k :: from <= k < |techs| ==> EntryValid(techs[k])
  {
    var r := EntriesIssues(techs, from);
    if r != [] {
      assert DescribesEntry(techs, from, r[0]);
      match r[0].path
      case TechTitle(k) => assert !EntryValid(techs[k]);
      case TechKnowledge(k) => assert !EntryValid(techs[k]);
    }
    if k :| from <= k < |techs| && !EntryValid(techs[k]) {
      ReportsEntry(techs, from, k);
      if techs[k].title == [] {
        assert Issue(TechTitle(k), TitleRequired) in r;
      } else if techs[k].knowledge < MinKnowledge {
        assert Issue(TechKnowledge(k), KnowledgeBelow) in r;
      } else {
        assert Issue(TechKnowledge(k), KnowledgeAbove) in r;
      }
    }
  }

  /**
   * The array rule: the raw length first, then every row. The list has no
   * issue exactly when it has at least two rows and each row is valid.
   */
  function TechsIssues(techs: seq<Tech>): (r: seq<Issue>)
    ensures r == [] <==> |techs| >= MinTechs && forall k :: 0 <= k < |techs| ==> EntryValid(techs[k])
    ensures |techs| < MinTechs ==> |r| > 0 && r[0] == Issue(Techs, TooFewTechs)
  {
    EntriesIssuesEmpty(techs, 0);
    (if |techs| < MinTechs then [Issue(Techs, TooFewTechs)] else []) + EntriesIssues(techs, 0)
  }

  // ------------------------------------------------------- whole object

  /** Every rule the schema declares, field by field, before any transform. */
  predicate MeetsRules(v: FormValues, isEmail: string -> bool) {
    |v.name| > 0 &&
    |v.email| > 0 && isEmail(v.email) && EndsWith(ToLower(v.email), AllowedSuffix) &&
    |v.password| >= MinPasswordLength &&
    |v.techs| >= MinTechs && (forall k :: 0 <= k < |v.techs| ==> EntryValid(v.techs[k]))
  }

  /** All issues, in the order the fields are declared: none exactly when every rule holds. */
  function Issues(v: FormValues, isEmail: string -> bool): (r: seq<Issue>)
    ensures r == [] <==> MeetsRules(v, isEmail)
  {
    NameIssues(v.name) + EmailIssues(v.email, isEmail) + PasswordIssues(v.password) + TechsIssues(v.techs)
  }

  predicate IsFirstAt(issues: seq<Issue>, j: nat)
    requires j < |issues|
  {
    forall i :: 0 <= i < j ==> issues[i].path != issues[j].path
  }

  /** The paths with a message are exactly the paths with an issue. */
  ghost predicate KeysArePaths(issues: seq<Issue>, m: map<Path, string>) {
    forall p :: p in m <==> exists j :: 0 <= j < |issues| && issues[j].path == p
  }

  /*
   * The three lemmas below each extend one property of the map from the
   * issues before the last to all of them, when the last issue's message is
   * added only for a path not seen before.
   */

  lemma ExtendKeys(issues: seq<Issue>, m: map<Path, string>)
    requires |issues| > 0 && KeysArePaths(issues[..|issues| - 1], m)
    ensures var last := issues[|issues| - 1];
      KeysArePaths(issues, if last.path in m then m else m[last.path := last.message])
  {
    var n := |issues| - 1;
    var init, last := issues[..n], issues[n];
    var m' := if last.path in m then m else m[last.path := last.message];
    forall p
      ensures p in m' <==> exists j :: 0 <= j < |issues| && issues[j].path == p
    {
      if p in m' && p != last.path {
        var j :| 0 <= j < n && init[j].path == p;
        assert issues[j].path == p;
      }
      if exists j :: 0 <= j < |issues| && issues[j].path == p {
        var j :| 0 <= j < |issues| && issues[j].path == p;
        if j < n {
          assert init[j].path == p;
        }
      }
    }
  }

  lemma ExtendFirst(issues: seq<Issue>, m: map<Path, string>)
    requires |issues| > 0 && KeysArePaths(issues[..|issues| - 1], m)
    requires var init := issues[..|issues| - 1];
      forall j :: 0 <= j < |init| && IsFirstAt(init, j) ==> m[init[j].path] == init[j].message
    ensures var last := issues[|issues| - 1];
      var m' := if last.path in m then m else m[last.path := last.message];
      forall j :: 0 <= j < |issues| && IsFirstAt(issues, j) ==> m'[issues[j].path] == issues[j].message
  {
    var n := |issues| - 1;
    var init := issues[..n];
    LastSeenIsNotFirst(issues, m);
    forall j | 0 <= j < |issues| && IsFirstAt(issues, j)
      ensures var last := issues[n];
        var m' := if last.path in m then m else m[last.path := last.message];
        m'[issues[j].path] == issues[j].message
    {
      if j < n {
        FirstInPrefix(issues, j);
      }
      ExtendFirstAt(issues, m, j);
    }
  }

  /** A last issue whose path the prefix already has is not the first at its path. */
  lemma LastSeenIsNotFirst(issues: seq<Issue>, m: map<Path, string>)
    requires |issues| > 0 && KeysArePaths(issues[..|issues| - 1], m)
    ensures issues[|issues| - 1].path in m ==> !IsFirstAt(issues, |issues| - 1)
  {
    var n := |issues| - 1;
    if issues[n].path in m {
      var i :| 0 <= i < n && issues[..n][i].path == issues[n].path;
      assert issues[i].path == issues[n].path;
    }
  }

  /** An issue first at its path in the list is first at its path in any prefix holding it. */
  lemma FirstInPrefix(issues: seq<Issue>, j: nat)
    requires j < |issues| - 1 && IsFirstAt(issues, j)
    ensures IsFirstAt(issues[..|issues| - 1], j)
  {
    var init := issues[..|issues| - 1];
    forall i | 0 <= i < j ensures init[i].path != init[j].path {
      assert init[i] == issues[i] && init[j] == issues[j];
    }
  }

  /** The message at the path of issue `j` after the last issue is added. */
  lemma ExtendFirstAt(issues: seq<Issue>, m: map<Path, string>, j: nat)
    requires j < |issues|
    requires j < |issues| - 1 ==> issues[j].path in m && m[issues[j].path] == issues[j].message
    requires j == |issues| - 1 ==> issues[j].path !in m
    ensures var last := issues[|issues| - 1];
      var m' := if last.path in m then m else m[last.path := last.message];
      issues[j].path in m' && m'[issues[j].path] == issues[j].message
  {
  }

  lemma ExtendMembers(issues: seq<Issue>, m: map<Path, string>)
    requires |issues| > 0
    requires forall p :: p in m ==> Issue(p, m[p]) in issues[..|issues| - 1]
    ensures var last := issues[|issues| - 1];
      var m' := if last.path in m then m else m[last.path := last.message];
      forall p :: p in m' ==> Issue(p, m'[p]) in issues
  {
    var n := |issues| - 1;
    var init, last := issues[..n], issues[n];
    var m' := if last.path in m then m else m[last.path := last.message];
    forall p | p in m'
      ensures Issue(p, m'[p]) in issues
    {
      if p in m && m'[p] == m[p] {
        var j :| 0 <= j < n && init[j] == Issue(p, m[p]);
        assert issues[j] == Issue(p, m'[p]);
      } else {
        assert issues[n] == Issue(p, m'[p]);
      }
    }
  }

  /** The resolver's error map: for every path with an issue, the message of its first issue. */
  function FirstErrors(issues: seq<Issue>): (m: map<Path, string>)
    ensures KeysArePaths(issues, m)
    ensures forall j :: 0 <= j < |issues| && IsFirstAt(issues, j) ==> m[issues[j].path] == issues[j].message
    ensures forall p :: p in m ==> Issue(p, m[p]) in issues
  {
    if |issues| == 0 then map[]
    else
      var last := issues[|issues| - 1];
      var m := FirstErrors(issues[..|issues| - 1]);
      ExtendKeys(issues, m);
      ExtendFirst(issues, m);
      ExtendMembers(issues, m);
      if last.path in m then m else m[last.path := last.message]
  }

  /** At least one issue means at least one entry in the error map. */
  lemma ErrorsNonEmpty(issues: seq<Issue>)
    requires issues != []
    ensures |FirstErrors(issues)| > 0
  {
    assert issues[0].path in FirstErrors(issues);
  }

  /**
   * A submit. The name transform throws before any result exists when it
   * meets an empty word; otherwise the values are accepted when there is no
   * issue at all, and rejected with the first message per path when there is.
   */
  function Validate(v: FormValues, isEmail: string -> bool): (o: Outcome)
    ensures o.Thrown? <==> |v.name| > 0 && [] in Split(Trim(v.name), ' ')
    ensures o.Rejected? ==> |o.errors| > 0
    ensures o.Accepted? ==>
      NoAsciiUpper(o.values.email) && EndsWith(o.values.email, AllowedSuffix) &&
      |o.values.password| >= MinPasswordLength && |o.values.techs| >= MinTechs &&
      forall k :: 0 <= k < |o.values.techs| ==> EntryValid(o.values.techs[k])
  {
    if |v.name| > 0 && TransformName(v.name).None? then Thrown
    else
      var issues := Issues(v, isEmail);
      if issues != [] then
        ErrorsNonEmpty(issues);
        Rejected(FirstErrors(issues))
      else
        ToLowerIsLower(v.email);
        Accepted(FormValues(TransformName(v.name).value, ToLower(v.email), v.password, v.techs))
  }

  /** Every rule of the schema holds and the name transform meets no empty word. */
  predicate Admissible(v: FormValues, isEmail: string -> bool) {
    MeetsRules(v, isEmail) && [] !in Split(Trim(v.name), ' ')
  }

  // ------------------------------------------------------------ rendering

  /**
   * The paths the page renders an error message for: the name, the email,
   * the password, the list and each row's title. A row's knowledge input
   * has no message element.
   */
  predicate Rendered(p: Path) {
    !p.TechKnowledge?
  }

  /** The part of an error map the page puts on screen. */
  function Displayed(errors: map<Path, string>): (d: map<Path, string>)
    ensures forall p :: p in d <==> p in errors && Rendered(p)
    ensures forall p :: p in d ==> d[p] == errors[p]
  {
    map p | p in errors && Rendered(p) :: errors[p]
  }
}
