/**
 * Validation of the create form posted to `/`: the three fields are stripped,
 * the minutes are parsed, and every applicable error is collected in a fixed
 * order before anything is stored.
 */
module Validation {
  import opened Wrappers
  import opened Text

  /** The four errors the create form can report. */
  datatype CreateError = MinutesNotInteger | MinutesBelowOne | TitleRequired | DatabaseNotConfigured

  /** The message shown for each error. */
  function Message(e: CreateError): (m: string)
    ensures |m| > 0
  {
    match e
    case MinutesNotInteger => "所要分数は整数で入力してください。"
    case MinutesBelowOne => "所要分数は1以上の整数で入力してください。"
    case TitleRequired => "タイトルは必須です。"
    case DatabaseNotConfigured => "データベースが未設定のため保存できません。"
  }

  /** Each error has its own message, so the page tells them apart. */
  lemma MessagesDistinct(e1: CreateError, e2: CreateError)
    ensures Message(e1) == Message(e2) ==> e1 == e2
  {
    if e1 != e2 {
      assert |Message(e1)| != |Message(e2)| || Message(e1)[0] != Message(e2)[0];
    }
  }

  /** The stripped field values echoed back into the form. */
  datatype FormValues = FormValues(title: string, minutes: string, description: string)

  /** The form as submitted, each field stripped of surrounding whitespace. */
  function StrippedForm(title: string, minutesRaw: string, description: string): (form: FormValues)
    ensures IsTrimmed(form.title) && IsTrimmed(form.minutes) && IsTrimmed(form.description)
    ensures form.title == [] <==> AllSpace(title)
  {
    FormValues(Strip(title), Strip(minutesRaw), Strip(description))
  }

  /** The order in which the checks run and their errors are appended. */
  const ReportOrder: seq<CreateError> := [MinutesNotInteger, MinutesBelowOne, TitleRequired, DatabaseNotConfigured]

  /** Position of an error in `ReportOrder`. */
  function Rank(e: CreateError): (n: nat)
    ensures n < |ReportOrder| && ReportOrder[n] == e
  {
    match e
    case MinutesNotInteger => 0
    case MinutesBelowOne => 1
    case TitleRequired => 2
    case DatabaseNotConfigured => 3
  }

  /** When each error applies to a stripped form. */
  predicate Applies(e: CreateError, form: FormValues, dbReady: bool) {
    match e
    case MinutesNotInteger => ParseInt(form.minutes).None?
    case MinutesBelowOne => ParseInt(form.minutes).Some? && ParseInt(form.minutes).value < 1
    case TitleRequired => form.title == []
    case DatabaseNotConfigured => !dbReady
  }

  /** The error a single check contributes: itself when it applies, else nothing. */
  function Check(e: CreateError, form: FormValues, dbReady: bool): (errors: seq<CreateError>)
    ensures e in errors <==> Applies(e, form, dbReady)
    ensures forall e' :: e' in errors ==> e' == e
  {
    if Applies(e, form, dbReady) then [e] else []
  }

  /** Errors listed strictly in report order (so none twice). */
  predicate InReportOrder(errors: seq<CreateError>) {
    forall i, j :: 0 <= i < j < |errors| ==> Rank(errors[i]) < Rank(errors[j])
  }

  /**
   * Every error that applies, in report order: the checks never short-circuit,
   * so each one contributes whatever the others found.
   */
  function CreateErrors(form: FormValues, dbReady: bool): (errors: seq<CreateError>)
    ensures forall e :: e in errors <==> Applies(e, form, dbReady)
    ensures InReportOrder(errors)
  {
    Check(MinutesNotInteger, form, dbReady) + Check(MinutesBelowOne, form, dbReady)
      + Check(TitleRequired, form, dbReady) + Check(DatabaseNotConfigured, form, dbReady)
  }

  /**
   * The error list is pinned down by which errors apply: two lists in report
   * order with the same members are the same list.
   */
  lemma {:induction false} ReportOrderUnique(a: seq<CreateError>, b: seq<CreateError>)
    requires InReportOrder(a) && InReportOrder(b)
    requires forall e :: e in a <==> e in b
    ensures a == b
  {
    if b != [] {
      assert b[0] in b;
    }
    if a != [] {
      assert a[0] in b && b[0] in a;
      forall e
        ensures e in a[1..] <==> e in b[1..]
      {
        if e in a[1..] {
          var k :| 0 <= k < |a| - 1 && a[1..][k] == e;
          assert Rank(a[0]) < Rank(a[k + 1]);
          assert a[k + 1] in a;
          var l :| 0 <= l < |b| && b[l] == e;
          assert b[1..][l - 1] == e;
        }
        if e in b[1..] {
          var l :| 0 <= l < |b| - 1 && b[1..][l] == e;
          assert Rank(b[0]) < Rank(b[l + 1]);
          assert b[l + 1] in b;
          var k :| 0 <= k < |a| && a[k] == e;
          assert a[1..][k - 1] == e;
        }
      }
      ReportOrderUnique(a[1..], b[1..]);
      assert a == [a[0]] + a[1..] && b == [b[0]] + b[1..];
    }
  }

  /** The two minutes errors never appear together. */
  lemma MinutesErrorsExclusive(form: FormValues, dbReady: bool)
    ensures !(MinutesNotInteger in CreateErrors(form, dbReady) && MinutesBelowOne in CreateErrors(form, dbReady))
  {
  }

  /** A title that strips to nothing is always reported, whatever the minutes say. */
  lemma BlankTitleAlwaysReported(title: string, minutesRaw: string, description: string, dbReady: bool)
    requires AllSpace(title)
    ensures TitleRequired in CreateErrors(StrippedForm(title, minutesRaw, description), dbReady)
  {
  }

  /** No error exactly when the minutes are an integer of at least 1, the title is set and a database is configured. */
  lemma NoErrorsIffAcceptable(form: FormValues, dbReady: bool)
    ensures CreateErrors(form, dbReady) == [] <==>
      ParseInt(form.minutes).Some? && ParseInt(form.minutes).value >= 1 && form.title != [] && dbReady
  {
    if CreateErrors(form, dbReady) == [] {
      assert !Applies(MinutesNotInteger, form, dbReady);
      assert !Applies(MinutesBelowOne, form, dbReady);
      assert !Applies(TitleRequired, form, dbReady);
      assert !Applies(DatabaseNotConfigured, form, dbReady);
    } else {
      var e := CreateErrors(form, dbReady)[0];
      assert e in CreateErrors(form, dbReady);
    }
  }

  /** A concrete submission: a blank title and minutes `abc` with no database report three errors, in order. */
  lemma AllButOneErrorExample()
    ensures CreateErrors(FormValues("", "abc", ""), false) == [MinutesNotInteger, TitleRequired, DatabaseNotConfigured]
  {
    var form := FormValues("", "abc", "");
    assert !IsIntLiteral("abc") by {
      assert !AllDigits("abc") by { assert !IsDigit("abc"[0]); }
    }
    var expected := [MinutesNotInteger, TitleRequired, DatabaseNotConfigured];
    assert InReportOrder(expected);
    ReportOrderUnique(CreateErrors(form, false), expected);
  }

  /**
   * The checks of the create handler, run one after another on the stripped
   * form, each appending its error; the result is every applicable error in
   * report order.
   */
  method CollectErrors(form: FormValues, dbReady: bool) returns (errors: seq<CreateError>, minutes: Option<int>)
    ensures minutes == ParseInt(form.minutes)
    ensures errors == CreateErrors(form, dbReady)
    ensures errors == [] ==> minutes.Some? && minutes.value >= 1 && form.title != [] && dbReady
  {
    errors := [];
    minutes := ParseInt(form.minutes);
    if minutes.None? {
      errors := errors + [MinutesNotInteger];
    }
    if minutes.Some? && minutes.value < 1 {
      errors := errors + [MinutesBelowOne];
    }
    if form.title == [] {
      errors := errors + [TitleRequired];
    }
    if !dbReady {
      errors := errors + [DatabaseNotConfigured];
    }
    NoErrorsIffAcceptable(form, dbReady);
  }

  /**
   * The create handler's validation: strip the three fields, keep them to echo
   * back, and collect the errors.
   */
  method ValidateCreate(title: string, minutesRaw: string, description: string, dbReady: bool)
    returns (errors: seq<CreateError>, form: FormValues, minutes: Option<int>)
    ensures form == StrippedForm(title, minutesRaw, description)
    ensures minutes == ParseInt(form.minutes)
    ensures errors == CreateErrors(form, dbReady)
    ensures errors == [] ==> minutes.Some? && minutes.value >= 1 && form.title != [] && dbReady
  {
    form := FormValues("", "", "");
    var t, m, d := Strip(title), Strip(minutesRaw), Strip(description);
    form := form.(title := t, minutes := m, description := d);
    errors, minutes := CollectErrors(form, dbReady);
  }
}
