/** The forms of blog/forms.py: which fields a submission can set, and the
    profile form's name guard. */
module Forms {

  import opened Wrappers
  import opened BlogModel

  /* ------------------------------------------------------- submitted fields */

  /** `CommentForm`: a comment submission carries its text and nothing else. */
  datatype CommentFields = CommentFields(text: string)

  /** `PostForm`: every post field except `author` and the creation time. */
  datatype PostFields = PostFields(
    title: string,
    text: string,
    pubDate: Time,
    isPublished: bool,
    category: Option<Id>,
    location: Option<Id>)

  /** The part of a post that a submission determines. */
  function FieldsOf(p: Post): PostFields
  {
    PostFields(p.title, p.text, p.pubDate, p.isPublished, p.category, p.location)
  }

  /** Saving a valid post form into an existing row. */
  function ApplyPostFields(p: Post, f: PostFields): (q: Post)
    ensures q.id == p.id && q.author == p.author && q.createdAt == p.createdAt
    ensures FieldsOf(q) == f
  {
    p.(title := f.title, text := f.text, pubDate := f.pubDate, isPublished := f.isPublished,
       category := f.category, location := f.location)
  }

  /** Submitting a post's own fields again leaves the post as it was. */
  lemma ResubmitUnchanged(p: Post)
    ensures ApplyPostFields(p, FieldsOf(p)) == p
  {
  }

  /** Saving a valid comment form into an existing row changes only the text. */
  function ApplyCommentFields(c: Comment, f: CommentFields): (d: Comment)
    ensures d.id == c.id && d.post == c.post && d.author == c.author && d.createdAt == c.createdAt
    ensures d.text == f.text
  {
    c.(text := f.text)
  }

  /** A profile submission: each name field after Django's own field cleaning,
      None when that field's validation already failed. */
  datatype UserFields = UserFields(
    firstName: Option<string>,
    lastName: Option<string>,
    email: Option<string>,
    username: Option<string>)

  /* ------------------------------------------------------------ whitespace */

  /** Python's `str.isspace` on one character, the separators of `str.split()`. */
  predicate IsSpace(c: char)
  {
    || ('\U{9}' <= c <= '\U{D}')
    || ('\U{1C}' <= c <= '\U{20}')
    || c == '\U{85}' || c == '\U{A0}' || c == '\U{1680}'
    || ('\U{2000}' <= c <= '\U{200A}')
    || c == '\U{2028}' || c == '\U{2029}' || c == '\U{202F}' || c == '\U{205F}' || c == '\U{3000}'
  }

  predicate NoSpace(s: string)
  {
    forall i :: 0 <= i < |s| ==> !IsSpace(s[i])
  }

  predicate AllSpace(s: string)
  {
    forall i :: 0 <= i < |s| ==> IsSpace(s[i])
  }

  /** The longest prefix of `s` without whitespace. */
  function Word(s: string): (w: string)
    ensures |w| <= |s| && w == s[..|w|]
    ensures NoSpace(w)
    ensures |w| < |s| ==> IsSpace(s[|w|])
  {
    if s == [] || IsSpace(s[0]) then []
    else
      var rest := Word(s[1..]);
      [s[0]] + rest
  }

  /** `s.split()`: the maximal runs of non-whitespace, in order. */
  function Split(s: string): (r: seq<string>)
    ensures forall k :: 0 <= k < |r| ==> r[k] != [] && NoSpace(r[k])
    ensures r == [] <==> AllSpace(s)
    decreases |s|
  {
    if s == [] then []
    else if IsSpace(s[0]) then Split(s[1..])
    else
      var w := Word(s);
      [w] + Split(s[|w|..])
  }

  /** Tokens put back together with one space between neighbours. */
  function Join(ts: seq<string>): string
  {
    if ts == [] then []
    else if |ts| == 1 then ts[0]
    else ts[0] + " " + Join(ts[1..])
  }

  /** A whitespace-free word followed by whitespace or nothing is read whole. */
  lemma {:induction false} WordOfPrefix(w: string, rest: string)
    requires NoSpace(w) && (rest == [] || IsSpace(rest[0]))
    ensures Word(w + rest) == w
  {
    if w != [] {
      assert (w + rest)[0] == w[0] && (w + rest)[1..] == w[1..] + rest;
      WordOfPrefix(w[1..], rest);
    }
  }

  /** Tokens are maximal: splitting tokens joined by single spaces gives back
      exactly those tokens, none cut in two and none merged. */
  lemma {:induction false} SplitOfJoin(ts: seq<string>)
    requires forall k :: 0 <= k < |ts| ==> ts[k] != [] && NoSpace(ts[k])
    ensures Split(Join(ts)) == ts
  {
    if |ts| == 1 {
      var w := ts[0];
      WordOfPrefix(w, []);
      assert w + [] == w;
      assert w[|w|..] == [];
    } else if |ts| > 1 {
      var w := ts[0];
      var tail := " " + Join(ts[1..]);
      var s := w + tail;
      assert Join(ts) == s;
      WordOfPrefix(w, tail);
      assert s[0] == w[0];
      assert s[|w|..] == tail;
      assert tail[1..] == Join(ts[1..]);
      SplitOfJoin(ts[1..]);
      assert ts == [w] + ts[1..];
    }
  }

  /** `s` with every whitespace character removed. */
  function Strip(s: string): string
  {
    if s == [] then [] else (if IsSpace(s[0]) then [] else [s[0]]) + Strip(s[1..])
  }

  function Concat(ts: seq<string>): string
  {
    if ts == [] then [] else ts[0] + Concat(ts[1..])
  }

  lemma {:induction false} StripAppend(s: string, t: string)
    ensures Strip(s + t) == Strip(s) + Strip(t)
  {
    if s == [] {
      assert s + t == t;
    } else {
      assert (s + t)[0] == s[0] && (s + t)[1..] == s[1..] + t;
      StripAppend(s[1..], t);
    }
  }

  lemma {:induction false} StripNoSpace(s: string)
    requires NoSpace(s)
    ensures Strip(s) == s
  {
    if s != [] {
      StripNoSpace(s[1..]);
    }
  }

  /** Splitting loses only the whitespace: the tokens put back together are
      the characters of `s` that are not whitespace. */
  lemma {:induction false} SplitKeepsText(s: string)
    ensures Concat(Split(s)) == Strip(s)
    decreases |s|
  {
    if s != [] {
      if IsSpace(s[0]) {
        SplitKeepsText(s[1..]);
      } else {
        var w := Word(s);
        assert s == w + s[|w|..];
        SplitKeepsText(s[|w|..]);
        StripAppend(w, s[|w|..]);
        StripNoSpace(w);
      }
    }
  }

  /* ---------------------------------------------------------- name guard */

  /** The result of a field's clean method, or the exception it raises. */
  datatype Cleaned = Cleaned(value: string) | IndexError

  /** The number of whitespace characters `s` starts with. */
  function LeadingSpace(s: string): (k: nat)
    ensures k <= |s| && AllSpace(s[..k])
    ensures k < |s| ==> !IsSpace(s[k])
  {
    if s == [] || !IsSpace(s[0]) then 0 else 1 + LeadingSpace(s[1..])
  }

  /** `UserForm.clean_first_name`: `first_name.split()[0]`, which raises
      when the name holds no token at all. */
  function CleanFirstName(firstName: string): (r: Cleaned)
    ensures r.IndexError? <==> AllSpace(firstName)
    ensures r.Cleaned? ==>
              var k := LeadingSpace(firstName);
              var n := |r.value|;
              && n > 0 && NoSpace(r.value)
              && k + n <= |firstName| && firstName[k..k + n] == r.value
              && (k + n == |firstName| || IsSpace(firstName[k + n]))
  {
    var tokens := Split(firstName);
    if tokens == [] then IndexError
    else
      FirstTokenAfterSpace(firstName);
      Cleaned(tokens[0])
  }

  /** The first token is the word that starts after the leading whitespace. */
  lemma {:induction false} FirstTokenAfterSpace(s: string)
    requires !AllSpace(s)
    ensures Split(s) != [] && Split(s)[0] == Word(s[LeadingSpace(s)..])
    decreases |s|
  {
    if IsSpace(s[0]) {
      assert !AllSpace(s[1..]) by {
        var i :| 0 <= i < |s| && !IsSpace(s[i]);
        assert s[1..][i - 1] == s[i];
      }
      FirstTokenAfterSpace(s[1..]);
      assert s[1..][LeadingSpace(s[1..])..] == s[LeadingSpace(s)..];
    }
  }

  /** `BEATLES`: the full names the profile form refuses. */
  const Beatles: set<string> := {"Джон Леннон", "Пол Маккартни", "Джордж Харрисон", "Ринго Старр"}

  /** The same four names as (first name, last name) pairs. */
  const BeatlesPairs: set<(string, string)> :=
    {("Джон", "Леннон"), ("Пол", "Маккартни"), ("Джордж", "Харрисон"), ("Ринго", "Старр")}

  const RejectionMessage: string := "Мы тоже любим Битлз, но введите, пожалуйста, настоящее имя!"

  /** A notification `send_mail` is asked to deliver. */
  datatype Mail = Mail(subject: string, message: string, fromEmail: string, recipients: seq<string>)

  datatype Verdict = Accepted | Rejected(message: string)

  /** The verdict of `UserForm.clean` and the mail it tries to send on the way.
      The mail is sent with `fail_silently=True` and the rejection follows
      unconditionally, so delivery has no bearing on the verdict. */
  datatype CleanResult = CleanResult(verdict: Verdict, mail: Option<Mail>)

  /** `UserForm.clean` on the cleaned first and last names. */
  function Clean(firstName: string, lastName: string): (r: CleanResult)
    ensures r.mail.Some? <==> r.verdict.Rejected?
    ensures r.verdict.Rejected? ==> r.verdict.message == RejectionMessage
    ensures r.verdict.Rejected? ==> r.mail.value.recipients == ["admin@acme.not"]
  {
    var full := firstName + " " + lastName;
    if full in Beatles then
      CleanResult(
        Rejected(RejectionMessage),
        Some(Mail("Another Beatles member", full + " пытался зарегестрироваться!",
                  "birthday_form@acme.not", ["admin@acme.not"])))
    else CleanResult(Accepted, None)
  }

  /** `clean` refuses exactly the four block-listed first/last name pairs. */
  lemma RejectedExactlyTheBeatles(firstName: string, lastName: string)
    ensures Clean(firstName, lastName).verdict.Rejected? <==> (firstName, lastName) in BeatlesPairs
  {
    var full := firstName + " " + lastName;
    assert "Джон" + " " + "Леннон" == "Джон Леннон";
    assert "Пол" + " " + "Маккартни" == "Пол Маккартни";
    assert "Джордж" + " " + "Харрисон" == "Джордж Харрисон";
    assert "Ринго" + " " + "Старр" == "Ринго Старр";
    if full == "Джон Леннон" {
      SplitAtOnlySpace(firstName, lastName, "Джон", "Леннон");
    } else if full == "Пол Маккартни" {
      SplitAtOnlySpace(firstName, lastName, "Пол", "Маккартни");
    } else if full == "Джордж Харрисон" {
      SplitAtOnlySpace(firstName, lastName, "Джордж", "Харрисон");
    } else if full == "Ринго Старр" {
      SplitAtOnlySpace(firstName, lastName, "Ринго", "Старр");
    }
  }

  /** Joining with one space is injective when the model pair has no spaces. */
  lemma SplitAtOnlySpace(first: string, last: string, a: string, b: string)
    requires ' ' !in a && ' ' !in b
    requires first + " " + last == a + " " + b
    ensures first == a && last == b
  {
    var full := a + " " + b;
    assert full[|first|] == ' ' && full[|a|] == ' ';
    assert |first| == |a|;
    assert first == full[..|first|] && a == full[..|a|];
    assert last == full[|first| + 1..] && b == full[|a| + 1..];
  }

  /** What the profile form's validation comes to. */
  datatype NameCheck = Valid(firstName: string, lastName: string) | Invalid(message: string) | Crash

  /** Full validation of the two name fields: `clean_first_name` runs during
      field cleaning and may raise; `clean` then reads both names from
      `cleaned_data` and raises `KeyError` for a field that failed its own
      validation; otherwise its verdict decides. */
  function ValidateNames(firstName: Option<string>, lastName: Option<string>): (r: NameCheck)
    ensures r.Crash? <==> firstName.None? || lastName.None? || AllSpace(firstName.value)
    ensures r.Valid? ==> r.lastName == lastName.value && CleanFirstName(firstName.value) == Cleaned(r.firstName)
    ensures r.Invalid? <==>
              && firstName.Some? && lastName.Some?
              && CleanFirstName(firstName.value).Cleaned?
              && (CleanFirstName(firstName.value).value, lastName.value) in BeatlesPairs
  {
    if firstName.Some? && CleanFirstName(firstName.value).IndexError? then Crash
    else if firstName.None? || lastName.None? then Crash
    else
      var first := CleanFirstName(firstName.value).value;
      RejectedExactlyTheBeatles(first, lastName.value);
      match Clean(first, lastName.value).verdict
      case Rejected(message) => Invalid(message)
      case Accepted => Valid(first, lastName.value)
  }

  /** Only the first word of the first name is checked, so a longer first
      name that starts with a block-listed one is still refused. */
  lemma TruncatedFirstNameRejected()
    ensures ValidateNames(Some("Джон Уинстон"), Some("Леннон")) == Invalid(RejectionMessage)
  {
    var s := "Джон Уинстон";
    assert !IsSpace(s[0]) && !IsSpace(s[1]) && !IsSpace(s[2]) && !IsSpace(s[3]) && IsSpace(s[4]);
    var r := CleanFirstName(s);
    assert LeadingSpace(s) == 0;
    var n := |r.value|;
    assert s[0..n] == r.value;
    assert n <= 4 by {
      if n > 4 { assert r.value[4] == s[4]; }
    }
    assert r.value == "Джон";
    RejectedExactlyTheBeatles("Джон", "Леннон");
  }
}
