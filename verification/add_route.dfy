/** The add-cashier route: the generated password, the generated user name
    with its uniqueness loop, and the `POST` handler that checks the request,
    rejects duplicate contacts, and saves the new cashier. */
module AddCashierRoute {
  import opened Text
  import opened CashierModel

  // ---------------------------------------------------------------------
  // generateRandomPassword
  // ---------------------------------------------------------------------

  const UpperLetters: string := "ABCDEFGHIJKLMNOPQRSTUVWXYZ"
  const LowerLetters: string := "abcdefghijklmnopqrstuvwxyz"
  const DigitChars: string := "0123456789"

  /** The characters the password is drawn from, in the order of the
      source's literal. */
  const PasswordAlphabet: string := UpperLetters + LowerLetters + DigitChars

  /** The length `POST` asks for. */
  const PasswordLength: nat := 8

  /** One draw of `Math.floor(Math.random() * characters.length)`. The random
      source is a parameter: each draw is an index into the alphabet. */
  type CharIndex = i: int | 0 <= i < 62

  predicate IsAlphanumeric(c: char)
  {
    'A' <= c <= 'Z' || 'a' <= c <= 'z' || '0' <= c <= '9'
  }

  lemma UpperLettersLayout()
    ensures forall i | 0 <= i < 26 :: UpperLetters[i] == ('A' as int + i) as char
  {
  }

  lemma LowerLettersLayout()
    ensures forall i | 0 <= i < 26 :: LowerLetters[i] == ('a' as int + i) as char
  {
  }

  lemma DigitCharsLayout()
    ensures forall i | 0 <= i < 10 :: DigitChars[i] == ('0' as int + i) as char
  {
  }

  /** The alphabet is the upper-case letters, then the lower-case letters,
      then the digits, each in order. */
  lemma AlphabetLayout()
    ensures |PasswordAlphabet| == 62
    ensures forall i | 0 <= i < 26 :: PasswordAlphabet[i] == ('A' as int + i) as char
    ensures forall i | 26 <= i < 52 :: PasswordAlphabet[i] == ('a' as int + (i - 26)) as char
    ensures forall i | 52 <= i < 62 :: PasswordAlphabet[i] == ('0' as int + (i - 52)) as char
  {
    UpperLettersLayout();
    LowerLettersLayout();
    DigitCharsLayout();
    forall i | 26 <= i < 52 ensures PasswordAlphabet[i] == LowerLetters[i - 26] {
    }
    forall i | 52 <= i < 62 ensures PasswordAlphabet[i] == DigitChars[i - 52] {
    }
  }

  /** Where a character sits in the alphabet. */
  function AlphabetIndex(c: char): (i: CharIndex)
    requires IsAlphanumeric(c)
    ensures PasswordAlphabet[i] == c
  {
    AlphabetLayout();
    if 'A' <= c <= 'Z' then c as int - 'A' as int
    else if 'a' <= c <= 'z' then 26 + (c as int - 'a' as int)
    else 52 + (c as int - '0' as int)
  }

  /** The alphabet holds exactly the ASCII letters and digits. */
  lemma AlphabetIsAlphanumeric(c: char)
    ensures c in PasswordAlphabet <==> IsAlphanumeric(c)
  {
    AlphabetLayout();
    if IsAlphanumeric(c) {
      assert PasswordAlphabet[AlphabetIndex(c)] == c;
    }
  }

  /** No character occurs twice in the alphabet. */
  lemma AlphabetDistinct(i: CharIndex, j: CharIndex)
    requires PasswordAlphabet[i] == PasswordAlphabet[j]
    ensures i == j
  {
    AlphabetLayout();
  }

  /** The password a sequence of draws produces. */
  function PasswordOf(draws: seq<CharIndex>): (password: string)
    ensures |password| == |draws|
  {
    seq(|draws|, k requires 0 <= k < |draws| => PasswordAlphabet[draws[k]])
  }

  /** Every password is letters and digits only, and hence trimmed. */
  lemma PasswordOfAlphanumeric(draws: seq<CharIndex>)
    ensures forall k | 0 <= k < |draws| :: IsAlphanumeric(PasswordOf(draws)[k])
    ensures IsTrimmed(PasswordOf(draws))
  {
    var p := PasswordOf(draws);
    forall k | 0 <= k < |draws| ensures IsAlphanumeric(p[k]) {
      AlphabetIsAlphanumeric(p[k]);
    }
  }

  /** Distinct draws give distinct passwords ... */
  lemma PasswordOfInjective(d1: seq<CharIndex>, d2: seq<CharIndex>)
    requires PasswordOf(d1) == PasswordOf(d2)
    ensures d1 == d2
  {
    forall k | 0 <= k < |d1| ensures d1[k] == d2[k] {
      assert PasswordOf(d1)[k] == PasswordOf(d2)[k];
      AlphabetDistinct(d1[k], d2[k]);
    }
  }

  /** ... and every string of letters and digits is some password, so the
      draws and the passwords of a given length correspond one to one. */
  lemma PasswordOfOnto(p: string)
    requires forall k | 0 <= k < |p| :: IsAlphanumeric(p[k])
    ensures exists draws: seq<CharIndex> :: PasswordOf(draws) == p
  {
    var draws := seq(|p|, k requires 0 <= k < |p| => AlphabetIndex(p[k]));
    assert PasswordOf(draws) == p;
  }

  /** `generateRandomPassword(length)`, one draw per character. */
  method GenerateRandomPassword(length: nat, draws: seq<CharIndex>) returns (password: string)
    requires |draws| == length
    ensures password == PasswordOf(draws)
  {
    password := "";
    for i := 0 to length
      invariant |password| == i
      invariant forall k | 0 <= k < i :: password[k] == PasswordAlphabet[draws[k]]
    {
      password := password + [PasswordAlphabet[draws[i]]];
    }
  }

  // ---------------------------------------------------------------------
  // generateUniqueUserName
  // ---------------------------------------------------------------------

  /** The fixed domain every generated user name ends with. */
  const Domain: string := "@nature.com"

  /** `s.slice(0, n)` */
  function Prefix(s: string, n: nat): (r: string)
    ensures |r| <= n && |r| <= |s| && r == s[..|r|]
    ensures |r| == n || r == s
  {
    if n < |s| then s[..n] else s
  }

  /** The letters a trimmed name contributes: the first two characters of a
      single word, or the first characters of the first and the last word,
      words being what `split(' ')` gives. */
  function Initials(t: string): string
  {
    var words := Split(t, ' ');
    if |words| == 1 then Prefix(words[0], 2)
    else Prefix(words[0], 1) + Prefix(words[|words| - 1], 1)
  }

  /** The letters the name contributes, once trimmed. */
  function Handle(name: string): string
  {
    Initials(Trim(name))
  }

  /** The first user name tried. */
  function BaseUserName(name: string): string
  {
    ToLower(Handle(name) + Domain)
  }

  /** `baseUserName.split('@')[0]`: what the counter is appended to. */
  function CounterStem(base: string): string
  {
    Split(base, '@')[0]
  }

  /** The user name tried on the k-th look-up: the base name first, then the
      stem followed by the counter 1, 2, 3, ... */
  function Candidate(base: string, k: nat): string
  {
    if k == 0 then base else ToLower(CounterStem(base) + DecimalString(k) + Domain)
  }

  lemma DomainIsLowerCase()
    ensures IsLowerCase(Domain) && ToLower(Domain) == Domain
  {
    ToLowerOfLowerCase(Domain);
  }

  lemma DecimalIsLowerCase(n: nat)
    ensures ToLower(DecimalString(n)) == DecimalString(n)
  {
    ToLowerOfLowerCase(DecimalString(n));
  }

  /** The base name is the lower-cased handle followed by the domain. */
  lemma BaseUserNameParts(name: string)
    ensures BaseUserName(name) == ToLower(Handle(name)) + Domain
  {
    ToLowerAppend(Handle(name), Domain);
    DomainIsLowerCase();
  }

  /** The stem is the lower-cased handle whenever the handle holds no `@`. */
  lemma BaseUserNameStem(name: string)
    ensures '@' in BaseUserName(name)
    ensures '@' !in Handle(name) ==> CounterStem(BaseUserName(name)) == ToLower(Handle(name))
  {
    var h := Handle(name);
    var b := BaseUserName(name);
    BaseUserNameParts(name);
    assert b[|h|] == '@';
    if '@' !in h {
      assert '@' !in ToLower(h);
      SplitFirst(b, '@');
      assert b[..|h|] == ToLower(h);
    }
  }

  /** A trimmed name with no space is one word: its first two characters
      make the handle. */
  lemma BaseUserNameOneWord(name: string)
    requires ' ' !in Trim(name)
    ensures BaseUserName(name) == ToLower(Prefix(Trim(name), 2)) + Domain
  {
    BaseUserNameParts(name);
  }

  /** The first word of a string with a space that does not start with one
      begins with the string's first character. */
  lemma FirstWordInitial(t: string)
    requires ' ' in t && t[0] != ' '
    ensures |Split(t, ' ')| >= 2 && Prefix(Split(t, ' ')[0], 1) == [t[0]]
  {
    SplitSingle(t, ' ');
    SplitFirst(t, ' ');
    assert 0 < IndexOf(t, ' ');
  }

  /** The last word of a string with a space that does not end with one
      begins right after the last space. */
  lemma LastWordInitial(t: string)
    requires ' ' in t && t[|t| - 1] != ' '
    ensures var words := Split(t, ' '); var i := LastIndexOf(t, ' ');
      i < |t| - 1 && Prefix(words[|words| - 1], 1) == [t[i + 1]]
  {
    SplitLast(t, ' ');
  }

  /** With a space there are several words, and the first and the last
      contribute. */
  lemma InitialsSeveral(t: string)
    requires ' ' in t
    ensures var words := Split(t, ' ');
      |words| >= 2 && Initials(t) == Prefix(words[0], 1) + Prefix(words[|words| - 1], 1)
  {
    SplitSingle(t, ' ');
  }

  /** A string with an inner space and none at either end gives the first
      characters of its first and its last word. */
  lemma InitialsOfWords(t: string)
    requires ' ' in t && t[0] != ' ' && t[|t| - 1] != ' '
    ensures var i := LastIndexOf(t, ' '); 0 < i < |t| - 1 && Initials(t) == [t[0], t[i + 1]]
  {
    InitialsSeveral(t);
    FirstWordInitial(t);
    LastWordInitial(t);
  }

  lemma TrimmedEndsNotSpace(t: string)
    requires IsTrimmed(t) && t != []
    ensures t[0] != ' ' && t[|t| - 1] != ' '
  {
  }

  /** A trimmed name with a space gives the initials of its first and its
      last word. */
  lemma BaseUserNameInitials(name: string)
    requires ' ' in Trim(name)
    ensures var t := Trim(name); var i := LastIndexOf(t, ' ');
      && 0 < i < |t| - 1 && BaseUserName(name) == ToLower([t[0], t[i + 1]]) + Domain
  {
    var t := Trim(name);
    TrimmedEndsNotSpace(t);
    InitialsOfWords(t);
    BaseUserNameParts(name);
  }

  /** Every candidate after the first is the stem, the counter and the
      domain, with nothing lower-cased but the stem. */
  lemma CandidateForm(base: string, k: nat)
    requires k >= 1
    ensures Candidate(base, k) == ToLower(CounterStem(base)) + DecimalString(k) + Domain
  {
    var p := CounterStem(base);
    ToLowerAppend(p + DecimalString(k), Domain);
    ToLowerAppend(p, DecimalString(k));
    DecimalIsLowerCase(k);
    DomainIsLowerCase();
  }

  /** No user name is tried twice. */
  lemma CandidatesDistinct(base: string, j: nat, k: nat)
    requires j < k
    ensures Candidate(base, j) != Candidate(base, k)
  {
    var p := CounterStem(base);
    CandidateForm(base, k);
    var ck := Candidate(base, k);
    if j == 0 {
      SplitFirst(base, '@');
      if '@' in base {
        assert ck[|p|] == DecimalString(k)[0];
        assert base[|p|] == '@';
      } else {
        assert |ck| > |base|;
      }
    } else {
      CandidateForm(base, j);
      var cj := Candidate(base, j);
      if cj == ck {
        assert cj[|p|..|cj| - |Domain|] == DecimalString(j);
        assert ck[|p|..|ck| - |Domain|] == DecimalString(k);
        DecimalStringInjective(j, k);
      }
    }
  }

  /** The user names tried before the k-th look-up. */
  function CandidatesBelow(base: string, k: nat): set<string>
  {
    set j | 0 <= j < k :: Candidate(base, j)
  }

  /** A look-up that finds its candidate taken leaves fewer taken names to
      run into. */
  lemma CandidatesBelowGrow(base: string, taken: set<string>, k: nat)
    requires Candidate(base, k) in taken
    ensures |taken - CandidatesBelow(base, k + 1)| < |taken - CandidatesBelow(base, k)|
  {
    var c := Candidate(base, k);
    assert CandidatesBelow(base, k + 1) == CandidatesBelow(base, k) + {c};
    forall j | 0 <= j < k ensures Candidate(base, j) != c {
      CandidatesDistinct(base, j, k);
    }
    assert c !in CandidatesBelow(base, k);
    assert taken - CandidatesBelow(base, k + 1) == (taken - CandidatesBelow(base, k)) - {c};
  }

  /** The index of the first candidate, from the k-th on, that nobody
      holds. */
  function FirstFreeIndex(base: string, taken: set<string>, k: nat): (m: nat)
    ensures k <= m && Candidate(base, m) !in taken
    ensures forall j | k <= j < m :: Candidate(base, j) in taken
    decreases |taken - CandidatesBelow(base, k)|
  {
    if Candidate(base, k) !in taken then k
    else
      CandidatesBelowGrow(base, taken, k);
      FirstFreeIndex(base, taken, k + 1)
  }

  /** A taken candidate sends the search on to the next one. */
  lemma FirstFreeIndexStep(base: string, taken: set<string>, k: nat)
    requires Candidate(base, k) in taken
    ensures FirstFreeIndex(base, taken, k) == FirstFreeIndex(base, taken, k + 1)
    ensures |taken - CandidatesBelow(base, k + 1)| < |taken - CandidatesBelow(base, k)|
  {
    CandidatesBelowGrow(base, taken, k);
  }

  /** The search result is determined: a free candidate preceded only by
      taken ones is the one found. */
  lemma FirstFreeIndexIsFirst(base: string, taken: set<string>, k: nat, m: nat)
    requires k <= m && Candidate(base, m) !in taken
    requires forall j | k <= j < m :: Candidate(base, j) in taken
    ensures FirstFreeIndex(base, taken, k) == m
  {
    var m' := FirstFreeIndex(base, taken, k);
    assert Candidate(base, m') !in taken && Candidate(base, m) !in taken;
  }

  /** What `generateUniqueUserName(name)` returns when `taken` are the user
      names in the collection. */
  function UniqueUserName(name: string, taken: set<string>): string
  {
    var base := BaseUserName(name);
    Candidate(base, FirstFreeIndex(base, taken, 0))
  }

  /** The generated user name is the first candidate nobody holds: whenever
      the m-th candidate is free and all before it are taken, it is the m-th
      candidate. */
  lemma UniqueUserNameIsFirstFree(name: string, taken: set<string>, m: nat)
    requires Candidate(BaseUserName(name), m) !in taken
    requires forall j | 0 <= j < m :: Candidate(BaseUserName(name), j) in taken
    ensures UniqueUserName(name, taken) == Candidate(BaseUserName(name), m)
  {
    FirstFreeIndexIsFirst(BaseUserName(name), taken, 0, m);
  }

  /** The handle starts where the trimmed name starts. */
  lemma HandleStart(name: string)
    ensures var h := Handle(name); h != [] ==> h[0] == Trim(name)[0]
  {
    var t := Trim(name);
    SplitFirst(t, ' ');
    if ' ' in t {
      TrimmedEndsNotSpace(t);
      InitialsOfWords(t);
    }
  }

  /** The base name never starts with whitespace. */
  lemma BaseUserNameStart(name: string)
    ensures var b := BaseUserName(name); b != [] && !IsWhitespace(b[0])
  {
    var h := Handle(name);
    BaseUserNameParts(name);
    HandleStart(name);
    if h != [] {
      assert !IsWhitespace(Trim(name)[0]);
      assert BaseUserName(name)[0] == LowerChar(h[0]);
    }
  }

  /** The first character of a candidate is never whitespace. */
  lemma CandidateStart(name: string, k: nat)
    ensures var c := Candidate(BaseUserName(name), k); c != [] && !IsWhitespace(c[0])
  {
    var b := BaseUserName(name);
    BaseUserNameStart(name);
    if k >= 1 {
      CandidateForm(b, k);
      var p := CounterStem(b);
      SplitFirst(b, '@');
      if p != [] {
        assert p[0] == b[0];
        assert ToLower(p)[0] == LowerChar(b[0]);
      }
    }
  }

  /** Every candidate ends with the domain. */
  lemma CandidateEnd(name: string, k: nat)
    ensures var c := Candidate(BaseUserName(name), k); |c| >= |Domain| && c[|c| - |Domain|..] == Domain
  {
    var b := BaseUserName(name);
    var x := if k == 0 then ToLower(Handle(name)) else ToLower(CounterStem(b)) + DecimalString(k);
    if k == 0 {
      BaseUserNameParts(name);
    } else {
      CandidateForm(b, k);
    }
    assert Candidate(b, k) == x + Domain;
    assert (x + Domain)[|x|..] == Domain;
  }

  /** Every candidate is trimmed: it starts with a letter, a digit or `@`
      and ends with the domain. */
  lemma CandidateTrimmed(name: string, k: nat)
    ensures IsTrimmed(Candidate(BaseUserName(name), k))
  {
    var c := Candidate(BaseUserName(name), k);
    CandidateStart(name, k);
    CandidateEnd(name, k);
    assert c[|c| - 1] == Domain[|Domain| - 1];
  }

  /** The generated user name is free, trimmed, lower-case, ends with the
      domain, and is the base name or the stem with a counter of one or
      more. */
  lemma UniqueUserNameShape(name: string, taken: set<string>)
    ensures var u := UniqueUserName(name, taken); var b := BaseUserName(name);
      && u !in taken && IsTrimmed(u) && IsLowerCase(u)
      && |u| >= |Domain| && u[|u| - |Domain|..] == Domain
      && (u == b || exists n: nat | n >= 1 :: u == ToLower(CounterStem(b)) + DecimalString(n) + Domain)
  {
    var b := BaseUserName(name);
    var m := FirstFreeIndex(b, taken, 0);
    CandidateTrimmed(name, m);
    CandidateEnd(name, m);
    if m >= 1 {
      CandidateForm(b, m);
    }
  }

  // Worked examples. Each literal name enters through a parameter fixed by
  // `requires name == "..."`: stated directly, as in
  // `BaseUserName("Jane Doe")`, the verifier unfolds the recursive string
  // functions on the literal eagerly, and the proofs grow far slower.

  /** A trimmed one-word name contributes its first two characters. */
  lemma OneWordExample(name: string, lower: string)
    requires IsTrimmed(name) && ' ' !in name && ToLower(Prefix(name, 2)) == lower
    ensures BaseUserName(name) == lower + Domain
  {
    TrimOfTrimmed(name);
    BaseUserNameOneWord(name);
  }

  /** A trimmed name whose last space is at `i` contributes its first
      character and the one after that space. */
  lemma TwoWordExample(name: string, i: nat, lower: string)
    requires IsTrimmed(name) && 0 < i < |name| - 1 && name[i] == ' '
    requires forall k | i < k < |name| :: name[k] != ' '
    requires ToLower([name[0], name[i + 1]]) == lower
    ensures BaseUserName(name) == lower + Domain
  {
    TrimOfTrimmed(name);
    LastIndexOfUnique(name, ' ', i);
    assert Trim(name) == name && LastIndexOf(name, ' ') == i;
    BaseUserNameInitials(name);
  }

  /** Two words give their initials. */
  lemma ExampleJaneDoe(name: string)
    requires name == "Jane Doe"
    ensures BaseUserName(name) == "jd@nature.com"
  {
    TwoWordExample(name, 4, "jd");
  }

  /** Only a space separates words: a tab does not, so this name is one
      word. */
  lemma ExampleJaneTabDoe(name: string)
    requires name == "Jane\tDoe"
    ensures BaseUserName(name) == "ja@nature.com"
  {
    OneWordExample(name, "ja");
  }

  /** One word gives its first two characters, or all of it when shorter. */
  lemma ExampleAl(name: string)
    requires name == "Al"
    ensures BaseUserName(name) == "al@nature.com"
  {
    OneWordExample(name, "al");
  }

  lemma ExampleA(name: string)
    requires name == "A"
    ensures BaseUserName(name) == "a@nature.com"
  {
    OneWordExample(name, "a");
  }

  /** A base name made of a lower-case stem without `@` and the domain
      moves on to that stem followed by the counter. */
  lemma StemExample(stem: string, counter: nat)
    requires '@' !in stem && IsLowerCase(stem) && counter >= 1
    ensures Candidate(stem + Domain, counter) == stem + DecimalString(counter) + Domain
  {
    var b := stem + Domain;
    assert b[|stem|] == '@';
    IndexOfUnique(b, '@', |stem|);
    SplitFirst(b, '@');
    assert b[..|stem|] == stem;
    CandidateForm(b, counter);
    ToLowerOfLowerCase(stem);
  }

  lemma JdParts(stem: string, base: string)
    requires stem == "jd" && base == "jd@nature.com"
    ensures base == stem + Domain && '@' !in stem && IsLowerCase(stem)
    ensures stem + "1" + Domain == "jd1@nature.com"
  {
  }

  lemma JdFirstCounter(stem: string, base: string)
    requires stem == "jd" && base == "jd@nature.com"
    ensures Candidate(base, 1) == "jd1@nature.com"
  {
    JdParts(stem, base);
    StemExample(stem, 1);
    assert DecimalString(1) == "1";
  }

  /** A taken base name moves on to the counter 1. */
  lemma ExampleJaneDoeTaken(name: string, taken: set<string>)
    requires name == "Jane Doe" && taken == {"jd@nature.com"}
    ensures UniqueUserName(name, taken) == "jd1@nature.com"
  {
    ExampleJaneDoe(name);
    JdFirstCounter("jd", "jd@nature.com");
    var b, c := "jd@nature.com", "jd1@nature.com";
    assert |c| != |b|;
    UniqueUserNameIsFirstFree(name, taken, 1);
  }

  /** `generateUniqueUserName(name)`: tries the base name, then the stem with
      1, 2, 3, ... until `findOne({ userName })` finds nothing. */
  method GenerateUniqueUserName(coll: CashierCollection, name: string) returns (userName: string)
    ensures userName == UniqueUserName(name, UserNames(coll.records))
  {
    var base := BaseUserName(name);
    ghost var taken := UserNames(coll.records);
    userName := base;
    var counter: nat := 1;
    var existing := FindOne(coll.records, UserNameIs(userName));
    FindOneByUserName(coll.records, userName);
    while existing.Some?
      invariant counter >= 1 && userName == Candidate(base, counter - 1)
      invariant existing.Some? <==> userName in taken
      invariant FirstFreeIndex(base, taken, counter - 1) == FirstFreeIndex(base, taken, 0)
      decreases |taken - CandidatesBelow(base, counter - 1)|
    {
      FirstFreeIndexStep(base, taken, counter - 1);
      userName := ToLower(CounterStem(base) + DecimalString(counter) + Domain);
      counter := counter + 1;
      existing := FindOne(coll.records, UserNameIs(userName));
      FindOneByUserName(coll.records, userName);
    }
  }

  // ---------------------------------------------------------------------
  // POST
  // ---------------------------------------------------------------------

  /** The fields the handler reads from the JSON body; each may be absent. */
  datatype Request = Request(
    cashierName: Option<string>,
    mobile: Option<string>,
    aadhaar: Option<string>,
    storeLocation: Option<string>,
    address: Option<string>,
    email: Option<string>)

  /** A string field is truthy when present and not empty. */
  predicate Given(f: Option<string>)
  {
    f.Some? && f.value != ""
  }

  predicate AllFieldsGiven(req: Request)
  {
    && Given(req.cashierName) && Given(req.mobile) && Given(req.aadhaar)
    && Given(req.storeLocation) && Given(req.address) && Given(req.email)
  }

  const MobileExists: string := "Mobile number already exists"
  const AadhaarExists: string := "Aadhaar number already exists"
  const EmailExists: string := "Email already exists"

  /** The handler's answers: 400 'All fields are required', 400 'Duplicate
      entry found' with its details, 400 'Validation failed' with the
      failures, 500 'Internal server error', or 201 with the credentials. */
  datatype Response =
    | FieldsRequired
    | DuplicateEntry(details: seq<string>)
    | ValidationFailed(errors: seq<FieldError>)
    | InternalError
    | Created(userName: string, password: string)

  /** Where a duplicate message sits in the order the handler pushes them. */
  function MessageRank(m: string): nat
  {
    if m == MobileExists then 0 else if m == AadhaarExists then 1 else 2
  }

  /** The details of a duplicate: one message per contact field the found
      record shares with the request, in the order mobile, aadhaar, email. */
  function DuplicateDetails(found: Cashier, mobile: string, aadhaar: string, email: string): (details: seq<string>)
    ensures MobileExists in details <==> found.mobile == mobile
    ensures AadhaarExists in details <==> found.aadhaar == aadhaar
    ensures EmailExists in details <==> found.email == email
    ensures forall m | m in details :: m == MobileExists || m == AadhaarExists || m == EmailExists
    ensures forall i, j | 0 <= i < j < |details| :: MessageRank(details[i]) < MessageRank(details[j])
  {
    (if found.mobile == mobile then [MobileExists] else [])
    + (if found.aadhaar == aadhaar then [AadhaarExists] else [])
    + (if found.email == email then [EmailExists] else [])
  }

  /** `errors.push(...)` for each contact field the found record shares. */
  method CollectDuplicateDetails(found: Cashier, mobile: string, aadhaar: string, email: string)
    returns (details: seq<string>)
    ensures details == DuplicateDetails(found, mobile, aadhaar, email)
  {
    details := [];
    if found.mobile == mobile {
      details := details + [MobileExists];
    }
    if found.aadhaar == aadhaar {
      details := details + [AadhaarExists];
    }
    if found.email == email {
      details := details + [EmailExists];
    }
  }

  /** The response together with the collection afterwards. */
  datatype Outcome = Outcome(response: Response, store: seq<Cashier>)

  /** The document the handler builds, before the setters run. */
  function NewDocument(req: Request, userName: string, password: string): Cashier
    requires AllFieldsGiven(req)
  {
    Cashier(req.cashierName.value, userName, req.mobile.value, req.aadhaar.value,
            req.storeLocation.value, req.address.value, req.email.value, password)
  }

  /** The contact query of a request. */
  function ContactQuery(req: Request): Query
    requires AllFieldsGiven(req)
  {
    AnyContactIs(req.mobile.value, req.aadhaar.value, req.email.value)
  }

  /** `POST /api/cashier/add` against a collection, given the random draws. */
  function AddCashier(store: seq<Cashier>, req: Request, draws: seq<CharIndex>): Outcome
    requires |draws| == PasswordLength
  {
    if !AllFieldsGiven(req) then Outcome(FieldsRequired, store)
    else match FindOne(store, ContactQuery(req))
      case Some(found) =>
        Outcome(DuplicateEntry(DuplicateDetails(found, req.mobile.value, req.aadhaar.value, req.email.value)), store)
      case None =>
        var userName := UniqueUserName(req.cashierName.value, UserNames(store));
        var password := PasswordOf(draws);
        Respond(SaveInto(store, NewDocument(req, userName, password)), userName, password)
  }

  /** How the handler answers the outcome of `save()`: 201 with the
      generated credentials, 400 with the validation errors, or 500. */
  function Respond(saving: Saving, userName: string, password: string): (out: Outcome)
    ensures out.store == saving.store
    ensures out.response.Created? <==> saving.outcome.Saved?
    ensures saving.outcome.Saved? ==> out.response == Created(userName, password)
    ensures saving.outcome.ValidationError? ==> out.response == ValidationFailed(saving.outcome.errors)
    ensures saving.outcome.DuplicateKey? ==> out.response == InternalError
  {
    match saving.outcome
    case Saved(_) => Outcome(Created(userName, password), saving.store)
    case ValidationError(errors) => Outcome(ValidationFailed(errors), saving.store)
    case DuplicateKey => Outcome(InternalError, saving.store)
  }

  /** Proof step of `Post`: with every field given and no contact taken, the
      outcome is the answer to saving the new document. */
  lemma AddCashierSaves(store: seq<Cashier>, req: Request, draws: seq<CharIndex>)
    requires |draws| == PasswordLength && AllFieldsGiven(req) && FindOne(store, ContactQuery(req)).None?
    ensures var userName, password := UniqueUserName(req.cashierName.value, UserNames(store)), PasswordOf(draws);
      AddCashier(store, req, draws) == Respond(SaveInto(store, NewDocument(req, userName, password)), userName, password)
  {
  }

  /** A missing or empty field is answered with 'All fields are required'
      and nothing else, and changes nothing. */
  lemma AddRequiresAllFields(store: seq<Cashier>, req: Request, draws: seq<CharIndex>)
    requires |draws| == PasswordLength
    ensures AddCashier(store, req, draws).response == FieldsRequired <==> !AllFieldsGiven(req)
    ensures !AllFieldsGiven(req) ==> AddCashier(store, req, draws).store == store
  {
  }

  /** A request whose mobile, aadhaar or email is already held is answered
      with 'Duplicate entry found', exactly then, and changes nothing; the
      details name the fields the first such record shares. */
  lemma AddRejectsDuplicates(store: seq<Cashier>, req: Request, draws: seq<CharIndex>)
    requires |draws| == PasswordLength && AllFieldsGiven(req)
    ensures var out := AddCashier(store, req, draws);
      out.response.DuplicateEntry? <==> exists i | 0 <= i < |store| :: Matches(store[i], ContactQuery(req))
    ensures var out := AddCashier(store, req, draws);
      out.response.DuplicateEntry? ==>
        && out.store == store && out.response.details != []
        && exists i | 0 <= i < |store| ::
          && Matches(store[i], ContactQuery(req))
          && (forall j | 0 <= j < i :: !Matches(store[j], ContactQuery(req)))
          && (MobileExists in out.response.details <==> store[i].mobile == req.mobile.value)
          && (AadhaarExists in out.response.details <==> store[i].aadhaar == req.aadhaar.value)
          && (EmailExists in out.response.details <==> store[i].email == req.email.value)
  {
    var out := AddCashier(store, req, draws);
    if out.response.DuplicateEntry? {
      var found := FindOne(store, ContactQuery(req));
      var i :| && 0 <= i < |store| && store[i] == found.value && Matches(found.value, ContactQuery(req))
               && forall j | 0 <= j < i :: !Matches(store[j], ContactQuery(req));
      if found.value.mobile == req.mobile.value {
        assert MobileExists in out.response.details;
      } else if found.value.aadhaar == req.aadhaar.value {
        assert AadhaarExists in out.response.details;
      } else {
        assert EmailExists in out.response.details;
      }
    }
  }

  /** A created cashier: the collection gains exactly one record, holding
      the trimmed request fields, the email also lower-cased, and the
      generated credentials, which are the ones the response carries. The
      user name is the first free candidate and the password eight letters
      or digits drawn from the alphabet. */
  lemma AddCreates(store: seq<Cashier>, req: Request, draws: seq<CharIndex>)
    requires |draws| == PasswordLength
    requires AddCashier(store, req, draws).response.Created?
    ensures AllFieldsGiven(req)
    ensures var out := AddCashier(store, req, draws); var u := out.response.userName; var p := out.response.password;
      && out.store == store + [Cashier(Trim(req.cashierName.value), u, Trim(req.mobile.value), Trim(req.aadhaar.value),
                                       Trim(req.storeLocation.value), Trim(req.address.value),
                                       ToLower(Trim(req.email.value)), p)]
      && u == UniqueUserName(req.cashierName.value, UserNames(store)) && u !in UserNames(store)
      && p == PasswordOf(draws) && |p| == PasswordLength
      && (forall k | 0 <= k < |p| :: IsAlphanumeric(p[k]))
      && (forall i | 0 <= i < |store| :: !Matches(store[i], ContactQuery(req)))
  {
    var out := AddCashier(store, req, draws);
    var u := out.response.userName;
    var p := out.response.password;
    UniqueUserNameShape(req.cashierName.value, UserNames(store));
    PasswordOfAlphanumeric(draws);
    TrimOfTrimmed(u);
    TrimOfTrimmed(p);
  }

  /** Every request leaves the collection invariant intact. */
  lemma AddKeepsStoreValid(store: seq<Cashier>, req: Request, draws: seq<CharIndex>)
    requires |draws| == PasswordLength && StoreValid(store)
    ensures StoreValid(AddCashier(store, req, draws).store)
  {
    if AllFieldsGiven(req) && FindOne(store, ContactQuery(req)).None? {
      var userName := UniqueUserName(req.cashierName.value, UserNames(store));
      SaveKeepsStoreValid(store, NewDocument(req, userName, PasswordOf(draws)));
    }
  }

  /** Only a failed or created save touches the collection, and only a
      created one changes it. */
  lemma AddChangesOnlyWhenCreated(store: seq<Cashier>, req: Request, draws: seq<CharIndex>)
    requires |draws| == PasswordLength
    ensures var out := AddCashier(store, req, draws);
      !out.response.Created? ==> out.store == store
    ensures var out := AddCashier(store, req, draws);
      out.response.Created? ==> |out.store| == |store| + 1 && out.store[..|store|] == store
  {
    var out := AddCashier(store, req, draws);
    if out.response.Created? {
      assert out.store[..|store|] == store;
    }
  }

  /** The 500 answer comes only from a unique index: the contacts match no
      record as sent, but one of them does once trimmed (and, for the email,
      lower-cased). */
  lemma AddInternalErrorCause(store: seq<Cashier>, req: Request, draws: seq<CharIndex>)
    requires |draws| == PasswordLength && StoreValid(store)
    requires AddCashier(store, req, draws).response == InternalError
    ensures AllFieldsGiven(req)
    ensures forall i | 0 <= i < |store| :: !Matches(store[i], ContactQuery(req))
    ensures exists i | 0 <= i < |store| ::
      || store[i].mobile == Trim(req.mobile.value)
      || store[i].aadhaar == Trim(req.aadhaar.value)
      || store[i].email == ToLower(Trim(req.email.value))
  {
    var userName := UniqueUserName(req.cashierName.value, UserNames(store));
    var doc := NewDocument(req, userName, PasswordOf(draws));
    var n := Normalize(doc);
    assert ClashesWithStore(store, n);
    var i :| 0 <= i < |store| && Clashes(store[i], n);
    UniqueUserNameShape(req.cashierName.value, UserNames(store));
    TrimOfTrimmed(userName);
    assert store[i].userName in UserNames(store);
    assert store[i].userName != n.userName;
  }

  /** A request whose contacts are already trimmed, with a lower-case email,
      never reaches the 500 answer: the duplicate check then sees everything
      the unique indexes would. */
  lemma AddNormalizedNeverInternalError(store: seq<Cashier>, req: Request, draws: seq<CharIndex>)
    requires |draws| == PasswordLength && StoreValid(store) && AllFieldsGiven(req)
    requires IsTrimmed(req.mobile.value) && IsTrimmed(req.aadhaar.value)
    requires IsTrimmed(req.email.value) && IsLowerCase(req.email.value)
    ensures AddCashier(store, req, draws).response != InternalError
  {
    if AddCashier(store, req, draws).response == InternalError {
      AddInternalErrorCause(store, req, draws);
      TrimOfTrimmed(req.mobile.value);
      TrimOfTrimmed(req.aadhaar.value);
      TrimOfTrimmed(req.email.value);
      ToLowerOfLowerCase(req.email.value);
    }
  }

  /** Once the fields are given and no contact is taken, the handler answers
      400 'Validation failed' exactly when the new document, after the
      setters, fails validation; the answer carries those failures and
      nothing is stored. */
  lemma AddValidationFails(store: seq<Cashier>, req: Request, draws: seq<CharIndex>)
    requires |draws| == PasswordLength && AllFieldsGiven(req) && FindOne(store, ContactQuery(req)).None?
    ensures var doc := NewDocument(req, UniqueUserName(req.cashierName.value, UserNames(store)), PasswordOf(draws));
      var errors := Validate(Normalize(doc)); var out := AddCashier(store, req, draws);
      && (out.response.ValidationFailed? <==> errors != [])
      && (out.response.ValidationFailed? ==> out.response.errors == errors && out.store == store)
  {
    AddCashierSaves(store, req, draws);
  }

  /** The generated user name is non-empty and has no whitespace at either
      end. */
  lemma UniqueUserNameTrimmed(name: string, taken: set<string>)
    ensures IsTrimmed(UniqueUserName(name, taken)) && UniqueUserName(name, taken) != ""
  {
    var m := FirstFreeIndex(BaseUserName(name), taken, 0);
    CandidateTrimmed(name, m);
    CandidateEnd(name, m);
  }

  /** A generated user name and password pass the setters unchanged and
      satisfy their validators. */
  lemma GeneratedFieldsAccepted(doc: Cashier, name: string, taken: set<string>, draws: seq<CharIndex>)
    requires doc.userName == UniqueUserName(name, taken) && doc.password == PasswordOf(draws) && |draws| >= 1
    ensures PathAccepted(Normalize(doc), UserName) && PathAccepted(Normalize(doc), Password)
  {
    UniqueUserNameTrimmed(name, taken);
    PasswordOfAlphanumeric(draws);
    TrimmedPathAccepted(doc, UserName);
    TrimmedPathAccepted(doc, Password);
  }

  /** The generated user name and password are never the reason for a 400
      'Validation failed': every failure it reports names a field taken from
      the request. */
  lemma AddValidationBlamesRequest(store: seq<Cashier>, req: Request, draws: seq<CharIndex>)
    requires |draws| == PasswordLength
    requires AddCashier(store, req, draws).response.ValidationFailed?
    ensures AllFieldsGiven(req) && FindOne(store, ContactQuery(req)).None?
    ensures forall e | e in AddCashier(store, req, draws).response.errors :: e.path != UserName && e.path != Password
  {
    var name := req.cashierName.value;
    var doc := NewDocument(req, UniqueUserName(name, UserNames(store)), PasswordOf(draws));
    AddValidationFails(store, req, draws);
    GeneratedFieldsAccepted(doc, name, UserNames(store), draws);
  }

  /** `POST /api/cashier/add`: the handler run against the collection. */
  method Post(coll: CashierCollection, req: Request, draws: seq<CharIndex>) returns (response: Response)
    requires coll.Valid() && |draws| == PasswordLength
    modifies coll
    ensures coll.Valid()
    ensures Outcome(response, coll.records) == AddCashier(old(coll.records), req, draws)
  {
    if !AllFieldsGiven(req) {
      return FieldsRequired;
    }
    var existing := FindOne(coll.records, ContactQuery(req));
    if existing.Some? {
      var details := CollectDuplicateDetails(existing.value, req.mobile.value, req.aadhaar.value, req.email.value);
      return DuplicateEntry(details);
    }
    var userName := GenerateUniqueUserName(coll, req.cashierName.value);
    var password := GenerateRandomPassword(PasswordLength, draws);
    var newCashier := NewDocument(req, userName, password);
    AddCashierSaves(coll.records, req, draws);
    var outcome := coll.Save(newCashier);
    match outcome
    case Saved(_) =>
      response := Created(userName, password);
    case ValidationError(errors) =>
      response := ValidationFailed(errors);
    case DuplicateKey =>
      response := InternalError;
  }
}
