/** `DataGenerator` (utils/data_generator.py): random test data. Every random
    draw and every Faker value is an input, so each generator is a function
    of its inputs and its shape, ranges and uniqueness can be stated. */
module DataGenerator {
  import opened Results
  import opened Text
  import opened ValidationHelper
  import DataHelper

  // =====================================================================
  // Random draws
  // =====================================================================

  /** An unending stream of raw random numbers; the k-th draw of a call
      site is `draws(k)`. */
  type Draws = nat -> nat

  /** `random.randint(lo, hi)` from one raw draw. */
  function RandInt(lo: int, hi: int, d: nat): (r: int)
    requires lo <= hi
    ensures lo <= r <= hi
  {
    lo + d % (hi - lo + 1)
  }

  /** Every value of the range can be drawn. */
  lemma RandIntOnto(lo: int, hi: int, v: int)
    requires lo <= v <= hi
    ensures RandInt(lo, hi, v - lo) == v
  {
    ModOfSmall(v - lo, hi - lo + 1);
  }

  lemma ModOfSmall(k: nat, n: nat)
    requires k < n
    ensures k % n == k
  {
  }

  /** `random.choice(options)` from one raw draw. */
  function Choice<T>(options: seq<T>, d: nat): (r: T)
    requires |options| > 0
    ensures r in options
  {
    options[d % |options|]
  }

  /** Every option can be drawn. */
  lemma ChoiceOnto<T>(options: seq<T>, k: nat)
    requires k < |options|
    ensures Choice(options, k) == options[k]
  {
    ModOfSmall(k, |options|);
  }

  // =====================================================================
  // generate_mobile_number: ''.join(str(random.randint(0, 9)) for 10 draws)
  // =====================================================================

  function GenerateMobileNumber(draws: Draws): (r: string)
    ensures |r| == 10 && Every(r, IsDigit)
  {
    var r := seq(10, i requires 0 <= i < 10 => DigitChar(RandInt(0, 9, draws(i))));
    assert Every(r, IsDigit) by {
      forall i | 0 <= i < 10 ensures IsDigit(r[i]) {
        assert r[i] == DigitChar(RandInt(0, 9, draws(i)));
      }
    }
    r
  }

  /** A generated mobile number always passes `is_valid_phone`. */
  lemma MobileNumberIsValidPhone(draws: Draws)
    ensures IsValidPhone(GenerateMobileNumber(draws))
  {
    PhoneDigitsIff(GenerateMobileNumber(draws));
  }

  /** Every string of ten digits, leading zeros included, can come out. */
  lemma MobileNumberOnto(s: string)
    requires |s| == 10 && Every(s, IsDigit)
    ensures GenerateMobileNumber(DigitDraws(s)) == s
  {
    var r := GenerateMobileNumber(DigitDraws(s));
    forall i | 0 <= i < 10 ensures r[i] == s[i] {
      MobileDigitOnto(s, i);
    }
  }

  /** Digit `i` of the number drawn from `DigitDraws(s)` is digit `i` of
      `s`. */
  lemma MobileDigitOnto(s: string, i: nat)
    requires |s| == 10 && Every(s, IsDigit) && i < 10
    ensures GenerateMobileNumber(DigitDraws(s))[i] == s[i]
  {
    var draws := DigitDraws(s);
    assert IsDigit(s[i]);
    assert draws(i) == DigitValue(s[i]);
    RandIntOnto(0, 9, DigitValue(s[i]));
    assert GenerateMobileNumber(draws)[i] == DigitChar(RandInt(0, 9, draws(i)));
  }

  /** The draws that spell out the digits of `s`. */
  function DigitDraws(s: string): Draws {
    (i: nat) => if i < |s| && IsDigit(s[i]) then DigitValue(s[i]) else 0
  }

  // =====================================================================
  // random.sample on a small population
  // =====================================================================

  predicate NoDuplicates<T(==)>(s: seq<T>) {
    forall i, j :: 0 <= i < j < |s| ==> s[i] != s[j]
  }

  /** The pool algorithm of CPython's `random.sample`, which it uses for
      populations this small: draw a position among those left, take that
      element, and fill its place with the last one. */
  function PoolSample<T>(pool: seq<T>, k: nat, draws: Draws, next: nat): (r: seq<T>)
    requires k <= |pool|
    ensures |r| == k
    ensures multiset(r) <= multiset(pool)
    decreases k
  {
    if k == 0 then []
    else
      var j := draws(next) % |pool|;
      var last := |pool| - 1;
      var rest := pool[j := pool[last]][..last];
      assert multiset(rest) == multiset(pool) - multiset{pool[j]} by {
        PoolRemove(pool, j);
      }
      [pool[j]] + PoolSample(rest, k - 1, draws, next + 1)
  }

  /** Overwriting position `j` with the last element and dropping the last
      removes exactly one copy of the element at `j`. */
  lemma PoolRemove<T>(pool: seq<T>, j: nat)
    requires j < |pool|
    ensures multiset(pool[j := pool[|pool| - 1]][..|pool| - 1]) == multiset(pool) - multiset{pool[j]}
  {
    var last := |pool| - 1;
    if j == last {
      assert pool == pool[..last] + [pool[last]];
      assert pool[j := pool[last]][..last] == pool[..last];
    } else {
      assert pool == pool[..j] + [pool[j]] + pool[j + 1..last] + [pool[last]];
      assert pool[j := pool[last]][..last] == pool[..j] + [pool[last]] + pool[j + 1..last];
    }
  }

  /** A sequence with at most one copy of each value has no two equal
      positions. */
  lemma {:induction false} CountsOneNoDuplicates<T>(s: seq<T>)
    requires forall x :: multiset(s)[x] <= 1
    ensures NoDuplicates(s)
    decreases |s|
  {
    if s != [] {
      assert s == [s[0]] + s[1..];
      assert forall x :: multiset(s[1..])[x] <= multiset(s)[x];
      CountsOneNoDuplicates(s[1..]);
      assert s[0] !in multiset(s[1..]);
    }
  }

  lemma {:induction false} NoDuplicatesCountsOne<T>(s: seq<T>)
    requires NoDuplicates(s)
    ensures forall x :: multiset(s)[x] <= 1
    decreases |s|
  {
    if s != [] {
      NoDuplicatesCountsOne(s[1..]);
      assert s == [s[0]] + s[1..];
      assert s[0] !in s[1..];
    }
  }

  /** A sample holds no element twice when the population does not, and
      takes every element from the population. */
  lemma SampleDistinctMembers<T>(pool: seq<T>, k: nat, draws: Draws, next: nat)
    requires k <= |pool| && NoDuplicates(pool)
    ensures NoDuplicates(PoolSample(pool, k, draws, next))
    ensures forall x :: x in PoolSample(pool, k, draws, next) ==> x in pool
  {
    var r := PoolSample(pool, k, draws, next);
    NoDuplicatesCountsOne(pool);
    assert forall x :: multiset(r)[x] <= multiset(pool)[x];
    CountsOneNoDuplicates(r);
    forall x | x in r ensures x in pool {
      assert x in multiset(r);
    }
  }

  // =====================================================================
  // generate_subjects / generate_hobbies
  // =====================================================================

  const Subjects: seq<string> := [
    "Math", "Physics", "Chemistry", "Biology", "Computer Science",
    "English", "History", "Geography", "Economics", "Art",
    "Music", "Physical Education", "Literature", "Philosophy"
  ]

  const Hobbies: seq<string> := ["Sports", "Reading", "Music"]

  /** `count or random.randint(1, 3)`: `None` and `0` are both falsy. */
  function EffectiveCount(count: Option<int>, countDraw: nat): (c: int)
    ensures count.Some? && count.value != 0 ==> c == count.value
    ensures count.None? || count.value == 0 ==> 1 <= c <= 3
  {
    if count.Some? && count.value != 0 then count.value else RandInt(1, 3, countDraw)
  }

  /** The body shared by `generate_subjects` and `generate_hobbies`:
      `random.sample(catalog, min(count, len(catalog)))`, which raises
      `ValueError` on a negative size. */
  function PickFromCatalog(catalog: seq<string>, count: Option<int>, countDraw: nat, draws: Draws): (r: Result<seq<string>>)
    requires NoDuplicates(catalog)
    ensures r.Err? <==> count.Some? && count.value < 0
    ensures r.Ok? ==> |r.value| == Min(EffectiveCount(count, countDraw), |catalog|)
    ensures r.Ok? ==> NoDuplicates(r.value) && forall x :: x in r.value ==> x in catalog
  {
    var k := Min(EffectiveCount(count, countDraw), |catalog|);
    if k < 0 then
      Err("Sample larger than population or is negative")
    else
      SampleDistinctMembers(catalog, k, draws, 0);
      Ok(PoolSample(catalog, k, draws, 0))
  }

  /** The size of a pick: the count asked for, at most the catalog, and one
      to three (at most the catalog) when no count is given. */
  lemma PickSizes(catalog: seq<string>, count: Option<int>, countDraw: nat, draws: Draws)
    requires NoDuplicates(catalog) && |catalog| >= 3
    ensures var r := PickFromCatalog(catalog, count, countDraw, draws);
      && (r.Ok? && count.Some? && count.value > 0 ==> |r.value| == Min(count.value, |catalog|))
      && (r.Ok? && (count.None? || count.value == 0) ==> 1 <= |r.value| <= 3)
  {
  }

  function Min(a: int, b: int): int {
    if a <= b then a else b
  }

  lemma SubjectsDistinct()
    ensures |Subjects| == 14 && NoDuplicates(Subjects)
  {
  }

  lemma HobbiesDistinct()
    ensures |Hobbies| == 3 && NoDuplicates(Hobbies)
  {
  }

  function GenerateSubjects(count: Option<int>, countDraw: nat, draws: Draws): (r: Result<seq<string>>)
    ensures r.Err? <==> count.Some? && count.value < 0
    ensures r.Ok? && count.Some? && count.value > 0 ==> |r.value| == Min(count.value, 14)
    ensures r.Ok? && (count.None? || count.value == 0) ==> 1 <= |r.value| <= 3
    ensures r.Ok? ==> NoDuplicates(r.value) && forall x :: x in r.value ==> x in Subjects
  {
    SubjectsDistinct();
    PickSizes(Subjects, count, countDraw, draws);
    PickFromCatalog(Subjects, count, countDraw, draws)
  }

  function GenerateHobbies(count: Option<int>, countDraw: nat, draws: Draws): (r: Result<seq<string>>)
    ensures r.Err? <==> count.Some? && count.value < 0
    ensures r.Ok? && count.Some? && count.value > 0 ==> |r.value| == Min(count.value, 3)
    ensures r.Ok? && (count.None? || count.value == 0) ==> 1 <= |r.value| <= 3
    ensures r.Ok? ==> NoDuplicates(r.value) && forall x :: x in r.value ==> x in Hobbies
  {
    HobbiesDistinct();
    PickSizes(Hobbies, count, countDraw, draws);
    PickFromCatalog(Hobbies, count, countDraw, draws)
  }

  // =====================================================================
  // Record generators: Faker values are inputs, draws give the numbers
  // =====================================================================

  /** The Faker values one record uses (`fake.first_name()` and so on). */
  datatype FakePerson = FakePerson(
    firstName: string, lastName: string, email: string, phone: string,
    address: string, city: string, state: string, postalCode: string,
    country: string, company: string, job: string, url: string)

  datatype UserData = UserData(
    firstName: string, lastName: string, email: string, phone: string,
    mobile: string, address: string, city: string, state: string,
    postalCode: string, country: string, age: int, salary: int,
    company: string, jobTitle: string, website: string)

  /** `generate_user_data`. */
  function GenerateUserData(fake: FakePerson, mobileDraws: Draws, ageDraw: nat, salaryDraw: nat): (u: UserData)
    ensures 18 <= u.age <= 65 && 3000 <= u.salary <= 15000
    ensures |u.mobile| == 10 && Every(u.mobile, IsDigit) && IsValidPhone(u.mobile)
  {
    MobileNumberIsValidPhone(mobileDraws);
    UserData(fake.firstName, fake.lastName, fake.email, fake.phone,
      GenerateMobileNumber(mobileDraws), fake.address, fake.city, fake.state,
      fake.postalCode, fake.country, RandInt(18, 65, ageDraw), RandInt(3000, 15000, salaryDraw),
      fake.company, fake.job, fake.url)
  }

  const Genders: seq<string> := ["Male", "Female", "Other"]

  datatype FormData = FormData(
    firstName: string, lastName: string, email: string, gender: string,
    mobile: string, dateOfBirth: string, subjects: seq<string>, hobbies: seq<string>,
    currentAddress: string, state: string, city: string)

  /** `generate_form_data`; the date of birth comes formatted from outside. */
  function GenerateFormData(fake: FakePerson, genderDraw: nat, mobileDraws: Draws, dateOfBirth: string,
                            subjectCountDraw: nat, subjectDraws: Draws,
                            hobbyCountDraw: nat, hobbyDraws: Draws): (f: FormData)
    ensures f.gender in Genders
    ensures |f.mobile| == 10 && Every(f.mobile, IsDigit) && IsValidPhone(f.mobile)
    ensures 1 <= |f.subjects| <= 3 && NoDuplicates(f.subjects) && forall x :: x in f.subjects ==> x in Subjects
    ensures 1 <= |f.hobbies| <= 3 && NoDuplicates(f.hobbies) && forall x :: x in f.hobbies ==> x in Hobbies
  {
    MobileNumberIsValidPhone(mobileDraws);
    var subjects := GenerateSubjects(None, subjectCountDraw, subjectDraws);
    var hobbies := GenerateHobbies(None, hobbyCountDraw, hobbyDraws);
    FormData(fake.firstName, fake.lastName, fake.email, Choice(Genders, genderDraw),
      GenerateMobileNumber(mobileDraws), dateOfBirth, subjects.value, hobbies.value,
      fake.address, fake.state, fake.city)
  }

  datatype ApiData = ApiData(title: string, body: string, userId: int, id: int, completed: bool)

  /** `generate_api_data`; title and body are Faker text. */
  function GenerateApiData(title: string, body: string, userIdDraw: nat, idDraw: nat, completedDraw: nat): (a: ApiData)
    ensures 1 <= a.userId <= 100 && 1 <= a.id <= 1000
  {
    ApiData(title, body, RandInt(1, 100, userIdDraw), RandInt(1, 1000, idDraw), Choice([true, false], completedDraw))
  }

  const FileTypes: seq<string> := ["txt", "pdf", "doc", "jpg", "png"]

  datatype FileData = FileData(filename: string, content: string, fileSize: int, fileType: string)

  /** `generate_file_data`: the name carries one four-digit number, the
      one `extract_numbers` gives back. */
  function GenerateFileData(content: string, nameDraw: nat, sizeDraw: nat, typeDraw: nat): (f: FileData)
    ensures exists n :: 1000 <= n <= 9999 && DataHelper.ExtractNumbers(f.filename) == [n]
    ensures 1024 <= f.fileSize <= 10240
    ensures f.fileType in FileTypes
  {
    var n := RandInt(1000, 9999, nameDraw);
    FileNameNumber(n);
    FileData("test_file_" + NatToString(n) + ".txt", content, RandInt(1024, 10240, sizeDraw), Choice(FileTypes, typeDraw))
  }

  lemma FileNameNumber(n: nat)
    ensures DataHelper.ExtractNumbers("test_file_" + NatToString(n) + ".txt") == [n]
  {
    assert NoChar("test_file_", IsDigit);
    assert NoChar(".txt", IsDigit);
    DataHelper.ExtractSingleNumber("test_file_", n, ".txt");
  }

  // =====================================================================
  // generate_web_table_data
  // =====================================================================

  const Departments: seq<string> := [
    "Compliance", "Insurance", "Legal", "Engineering",
    "Human Resources", "Marketing", "Sales", "Finance"
  ]

  datatype TableRecord = TableRecord(
    firstName: string, lastName: string, email: string,
    age: int, salary: int, department: string)

  /** The record the loop builds on its `i`-th turn, from that turn's Faker
      values and draws. */
  function TableRecordAt(i: nat, fake: nat -> FakePerson, ages: Draws, salaries: Draws, departments: Draws): (r: TableRecord)
    ensures 18 <= r.age <= 65 && 3000 <= r.salary <= 15000
    ensures r.department in Departments
  {
    TableRecord(fake(i).firstName, fake(i).lastName, fake(i).email,
      RandInt(18, 65, ages(i)), RandInt(3000, 15000, salaries(i)), Choice(Departments, departments(i)))
  }

  /** `generate_web_table_data`: one record per turn of `range(count)`, so
      none for a negative count. */
  method GenerateWebTableData(count: int, fake: nat -> FakePerson, ages: Draws, salaries: Draws, departments: Draws)
    returns (data: seq<TableRecord>)
    ensures |data| == if count < 0 then 0 else count
    ensures forall i :: 0 <= i < |data| ==> data[i] == TableRecordAt(i, fake, ages, salaries, departments)
  {
    data := [];
    var i := 0;
    while i < count
      invariant 0 <= i <= (if count < 0 then 0 else count)
      invariant |data| == i
      invariant forall k :: 0 <= k < i ==> data[k] == TableRecordAt(k, fake, ages, salaries, departments)
    {
      data := data + [TableRecordAt(i, fake, ages, salaries, departments)];
      i := i + 1;
    }
  }

  /** Every generated table row has an age, a salary and a department in
      range. */
  lemma WebTableRowsInRange(data: seq<TableRecord>, fake: nat -> FakePerson, ages: Draws, salaries: Draws, departments: Draws)
    requires forall i :: 0 <= i < |data| ==> data[i] == TableRecordAt(i, fake, ages, salaries, departments)
    ensures forall i :: 0 <= i < |data| ==>
      18 <= data[i].age <= 65 && 3000 <= data[i].salary <= 15000 && data[i].department in Departments
  {
    forall i | 0 <= i < |data|
      ensures 18 <= data[i].age <= 65 && 3000 <= data[i].salary <= 15000 && data[i].department in Departments
    {
      var r := TableRecordAt(i, fake, ages, salaries, departments);
      assert data[i] == r;
    }
  }

  // =====================================================================
  // generate_performance_data
  // =====================================================================

  const Categories: seq<string> := ["A", "B", "C", "D", "E"]

  datatype PerfRecord = PerfRecord(id: int, name: string, value: int, timestamp: string, category: string)

  /** The record of turn `i`: its id is `i + 1`, its value and category
      are drawn in range. The timestamp is the clock's reading. */
  function PerfRecordAt(i: nat, values: Draws, categories: Draws, clock: nat -> string): (r: PerfRecord)
    ensures r.id == i + 1
    ensures r.name == PerfName(i + 1)
    ensures 1 <= r.value <= 1000
    ensures r.category in Categories
  {
    PerfRecord(i + 1, PerfName(i + 1), RandInt(1, 1000, values(i)),
      clock(i), Choice(Categories, categories(i)))
  }

  /** The name of the record with id `id`. */
  function PerfName(id: nat): string {
    "Performance Test Item " + NatToString(id)
  }

  /** The only number in a record's name is its id. */
  lemma PerfNameCarriesId(id: nat)
    ensures DataHelper.ExtractNumbers(PerfName(id)) == [id]
  {
    assert NoChar("Performance Test Item ", IsDigit);
    DataHelper.ExtractSingleNumber("Performance Test Item ", id, "");
    assert "Performance Test Item " + NatToString(id) + "" == PerfName(id);
  }

  /** `generate_performance_data`: ids 1 to `count` in order. */
  method GeneratePerformanceData(count: int, values: Draws, categories: Draws, clock: nat -> string)
    returns (data: seq<PerfRecord>)
    ensures |data| == if count < 0 then 0 else count
    ensures forall i :: 0 <= i < |data| ==> data[i] == PerfRecordAt(i, values, categories, clock)
  {
    data := [];
    var i := 0;
    while i < count
      invariant 0 <= i <= (if count < 0 then 0 else count)
      invariant |data| == i
      invariant forall k :: 0 <= k < i ==> data[k] == PerfRecordAt(k, values, categories, clock)
    {
      var r := PerfRecordAt(i, values, categories, clock);
      data := data + [r];
      i := i + 1;
    }
  }

  /** The ids of generated performance data count up from 1 and each name
      carries its id. */
  lemma PerformanceIds(data: seq<PerfRecord>, values: Draws, categories: Draws, clock: nat -> string)
    requires forall i :: 0 <= i < |data| ==> data[i] == PerfRecordAt(i, values, categories, clock)
    ensures forall i :: 0 <= i < |data| ==> data[i].id == i + 1 && DataHelper.ExtractNumbers(data[i].name) == [i + 1]
  {
    forall i | 0 <= i < |data|
      ensures data[i].id == i + 1 && DataHelper.ExtractNumbers(data[i].name) == [i + 1]
    {
      var r := PerfRecordAt(i, values, categories, clock);
      assert data[i] == r;
      PerfNameCarriesId(i + 1);
    }
  }

  // =====================================================================
  // generate_random_string
  // =====================================================================

  /** The `n` consecutive characters from `first` on. */
  function CharRange(first: char, n: nat): (r: string)
    requires (first as int) + n <= 0xD800
    ensures |r| == n
    ensures forall c :: c in r <==> first <= c && (c as int) < (first as int) + n
  {
    var r := seq(n, i requires 0 <= i < n => ((first as int) + i) as char);
    forall c | first <= c && (c as int) < (first as int) + n ensures c in r {
      assert r[(c as int) - (first as int)] == c;
    }
    r
  }

  /** `string.ascii_letters` and `string.digits`. */
  const AsciiLetters: string := CharRange('a', 26) + CharRange('A', 26)
  const Digits: string := CharRange('0', 10)

  function RandomStringAlphabet(includeDigits: bool): (chars: string)
    ensures |chars| > 0
    ensures forall c :: c in chars <==> IsAsciiLetter(c) || (includeDigits && IsDigit(c))
  {
    if includeDigits then AsciiLetters + Digits else AsciiLetters
  }

  /** `n` independent `random.choice(chars)` draws. */
  function Choices(chars: string, n: nat, draws: Draws): (r: string)
    requires |chars| > 0
    ensures |r| == n && forall i :: 0 <= i < n ==> r[i] in chars
  {
    var r := seq(n, i requires 0 <= i < n => Choice(chars, draws(i)));
    forall i | 0 <= i < n ensures r[i] in chars {
      assert r[i] == Choice(chars, draws(i));
    }
    r
  }

  /** The draws that pick the characters of `s` out of `chars`. */
  function IndexDraws(chars: string, s: string): Draws {
    (i: nat) => if i < |s| then IndexOf(chars, s[i]) else 0
  }

  /** Any string over the alphabet comes out of some draws. */
  lemma ChoicesOnto(chars: string, s: string)
    requires |chars| > 0 && forall i :: 0 <= i < |s| ==> s[i] in chars
    ensures Choices(chars, |s|, IndexDraws(chars, s)) == s
  {
    var draws := IndexDraws(chars, s);
    var r := Choices(chars, |s|, draws);
    forall i | 0 <= i < |s| ensures r[i] == s[i] {
      var k := IndexOf(chars, s[i]);
      IndexOfMember(chars, s[i]);
      assert draws(i) == k;
      ChoiceOnto(chars, k);
      assert r[i] == Choice(chars, k);
    }
  }

  /** `generate_random_string`: `length` draws from the alphabet, none for
      a negative length. */
  function GenerateRandomString(length: int, includeDigits: bool, draws: Draws): (r: string)
    ensures |r| == if length < 0 then 0 else length
    ensures forall i :: 0 <= i < |r| ==> IsAsciiLetter(r[i]) || (includeDigits && IsDigit(r[i]))
  {
    Choices(RandomStringAlphabet(includeDigits), if length < 0 then 0 else length, draws)
  }

  /** Every string over the alphabet can come out. */
  lemma RandomStringOnto(s: string, includeDigits: bool)
    requires forall i :: 0 <= i < |s| ==> IsAsciiLetter(s[i]) || (includeDigits && IsDigit(s[i]))
    ensures exists draws :: GenerateRandomString(|s|, includeDigits, draws) == s
  {
    var chars := RandomStringAlphabet(includeDigits);
    ChoicesOnto(chars, s);
    assert GenerateRandomString(|s|, includeDigits, IndexDraws(chars, s)) == s;
  }

  // =====================================================================
  // generate_email_variations
  // =====================================================================

  /** `generate_email_variations`: unpacking `split('@')` into two names
      raises unless there is exactly one `@`. */
  function GenerateEmailVariations(baseEmail: string, suffixDraw: nat): (r: Result<seq<string>>)
    ensures r.Err? <==> multiset(baseEmail)['@'] != 1
    ensures r.Ok? ==> |r.value| == 4
  {
    var parts := Split(baseEmail, '@');
    if |parts| != 2 then
      Err("ValueError: " + (if |parts| < 2 then "not enough" else "too many") + " values to unpack (expected 2)")
    else
      var name, domain := parts[0], parts[1];
      Ok([name + "+test@" + domain,
          name + ".test@" + domain,
          "test." + name + "@" + domain,
          name + "_" + NatToString(RandInt(100, 999, suffixDraw)) + "@" + domain])
  }

  /** The variations of `name@domain` are the four new local parts on the
      same domain. */
  lemma EmailVariationsOf(name: string, domain: string, d: nat)
    requires '@' !in name && '@' !in domain
    ensures GenerateEmailVariations(name + "@" + domain, d) == Ok([
      (name + "+test") + "@" + domain,
      (name + ".test") + "@" + domain,
      ("test." + name) + "@" + domain,
      (name + "_" + NatToString(RandInt(100, 999, d))) + "@" + domain])
  {
    var s := name + "@" + domain;
    IndexOfFirst(name, '@', domain);
    assert s[..|name|] == name && s[|name| + 1..] == domain;
    assert IndexOf(domain, '@') == |domain|;
    assert Split(s, '@') == [name] + Split(domain, '@');
    assert Split(domain, '@') == [domain];
    assert (name + "+test") + "@" + domain == name + "+test@" + domain;
    assert (name + ".test") + "@" + domain == name + ".test@" + domain;
  }

  /** A local part the email pattern accepts: non-empty, `@`-free and
      within the local class. */
  predicate LocalOk(local: string) {
    local != [] && '@' !in local && Every(local, IsLocalChar)
  }

  /** The four new local parts stay inside the local-part class and free of
      `@`. */
  lemma VariantLocalsOk(name: string, digits: string)
    requires LocalOk(name) && Every(digits, IsDigit)
    ensures LocalOk(name + "+test") && LocalOk(name + ".test")
    ensures LocalOk("test." + name) && LocalOk(name + "_" + digits)
  {
    AffixesLocal();
    DigitsLocal(digits);
    ConcatLocal(name, "+test");
    ConcatLocal(name, ".test");
    ConcatLocal("test.", name);
    ConcatLocal(name, "_");
    ConcatLocal(name + "_", digits);
  }

  /** Two pieces of local part glue into one, if either is non-empty. */
  lemma ConcatLocal(x: string, y: string)
    requires Every(x, IsLocalChar) && Every(y, IsLocalChar) && '@' !in x && '@' !in y
    requires x != [] || y != []
    ensures LocalOk(x + y)
  {
    EveryConcat(x, y, IsLocalChar);
  }

  lemma AffixesLocal()
    ensures Every("+test", IsLocalChar) && '@' !in "+test"
    ensures Every(".test", IsLocalChar) && '@' !in ".test"
    ensures Every("test.", IsLocalChar) && '@' !in "test."
    ensures Every("_", IsLocalChar) && '@' !in "_"
  {
  }

  lemma DigitsLocal(digits: string)
    requires Every(digits, IsDigit)
    ensures Every(digits, IsLocalChar) && '@' !in digits
  {
  }

  /** A valid address splits at its one `@` into two `@`-free parts. */
  lemma ValidEmailSplitsInTwo(baseEmail: string)
    requires IsValidEmail(baseEmail)
    ensures |Split(baseEmail, '@')| == 2
    ensures baseEmail == Split(baseEmail, '@')[0] + "@" + Split(baseEmail, '@')[1]
  {
    ValidEmailHasOneAt(baseEmail);
  }

  lemma VariantsValid(name: string, domain: string, digits: string)
    requires '@' !in name && '@' !in domain && Every(digits, IsDigit)
    requires IsValidEmail(name + "@" + domain)
    ensures IsValidEmail((name + "+test") + "@" + domain)
    ensures IsValidEmail((name + ".test") + "@" + domain)
    ensures IsValidEmail(("test." + name) + "@" + domain)
    ensures IsValidEmail((name + "_" + digits) + "@" + domain)
  {
    ValidEmailLocal(name, domain);
    VariantLocalsOk(name, digits);
    ValidEmailLocalSwap(name, name + "+test", domain);
    ValidEmailLocalSwap(name, name + ".test", domain);
    ValidEmailLocalSwap(name, "test." + name, domain);
    ValidEmailLocalSwap(name, name + "_" + digits, domain);
  }

  lemma VariationsOfValidAddress(name: string, domain: string, d: nat)
    requires '@' !in name && '@' !in domain
    requires IsValidEmail(name + "@" + domain)
    ensures forall v :: v in GenerateEmailVariations(name + "@" + domain, d).value ==> IsValidEmail(v)
  {
    VariantsValid(name, domain, NatToString(RandInt(100, 999, d)));
    EmailVariationsOf(name, domain, d);
  }

  /** Variations of a valid address are valid addresses. */
  lemma EmailVariationsValid(baseEmail: string, d: nat)
    requires IsValidEmail(baseEmail)
    ensures GenerateEmailVariations(baseEmail, d).Ok?
    ensures forall v :: v in GenerateEmailVariations(baseEmail, d).value ==> IsValidEmail(v)
  {
    ValidEmailSplitsInTwo(baseEmail);
    var parts := Split(baseEmail, '@');
    VariationsOfValidAddress(parts[0], parts[1], d);
  }

  lemma ThreeDigitNumeral(n: nat)
    requires 100 <= n <= 999
    ensures |NatToString(n)| == 3
  {
    assert 10 <= n / 10 < 100;
    assert |NatToString(n / 10 / 10)| == 1;
  }

  /** The first, second and fourth variations always differ from each
      other and from the third; the second and third coincide for the local
      part "test". */
  lemma EmailVariationsDistinct(name: string, domain: string, d: nat)
    requires '@' !in name && '@' !in domain
    ensures var v := GenerateEmailVariations(name + "@" + domain, d).value;
      v[0] != v[1] && v[0] != v[2] && v[0] != v[3] && v[1] != v[3] && v[2] != v[3]
  {
    EmailVariationsOf(name, domain, d);
    var v := GenerateEmailVariations(name + "@" + domain, d).value;
    assert v[0][|name|] == '+' && v[1][|name|] == '.' && v[3][|name|] == '_';
    ThreeDigitNumeral(RandInt(100, 999, d));
    assert |v[2]| == |name| + 6 + |domain| && |v[3]| == |name| + 5 + |domain|;
    PlusVariantDiffers(name, domain);
  }

  /** The first variation has one `+` more than the third. */
  lemma PlusVariantDiffers(name: string, domain: string)
    ensures (name + "+test") + "@" + domain != ("test." + name) + "@" + domain
  {
    AffixPlusCounts();
    var n, m := multiset(name)['+'], multiset(domain)['+'];
    assert multiset((name + "+test") + "@" + domain)['+'] == n + 1 + m;
    assert multiset(("test." + name) + "@" + domain)['+'] == n + m;
  }

  lemma AffixPlusCounts()
    ensures multiset("+test")['+'] == 1 && multiset("test.")['+'] == 0 && multiset("@")['+'] == 0
  {
  }

  /** The second and third variations differ whenever the local part does
      not start with 't'. */
  lemma DotVariantsDiffer(name: string, domain: string, d: nat)
    requires '@' !in name && '@' !in domain
    requires name != [] && name[0] != 't'
    ensures var v := GenerateEmailVariations(name + "@" + domain, d).value; v[1] != v[2]
  {
    EmailVariationsOf(name, domain, d);
    var v := GenerateEmailVariations(name + "@" + domain, d).value;
    assert v[1][0] == name[0];
    assert v[2][0] == 't';
  }

  /** For a local part not starting with 't', the four variations are
      different addresses, each on the original `@` and domain. */
  lemma VariationsDistinctOnDomain(name: string, domain: string, d: nat)
    requires '@' !in name && '@' !in domain
    requires name != [] && name[0] != 't'
    ensures GenerateEmailVariations(name + "@" + domain, d).Ok?
    ensures var v := GenerateEmailVariations(name + "@" + domain, d).value;
      |v| == 4 && NoDuplicates(v) && forall i :: 0 <= i < 4 ==> OccursIn("@" + domain, v[i])
  {
    EmailVariationsDistinct(name, domain, d);
    DotVariantsDiffer(name, domain, d);
    EmailVariationsOf(name, domain, d);
    var v := GenerateEmailVariations(name + "@" + domain, d).value;
    var locals := [name + "+test", name + ".test", "test." + name, name + "_" + NatToString(RandInt(100, 999, d))];
    forall i | 0 <= i < 4 ensures OccursIn("@" + domain, v[i]) {
      assert v[i] == locals[i] + "@" + domain;
      OnDomain(locals[i], domain);
    }
  }

  /** "user@example.com" gives four different addresses, each containing
      "@example.com". */
  lemma UserExampleVariations(email: string, d: nat)
    requires email == "user@example.com"
    ensures GenerateEmailVariations(email, d).Ok? && var v := GenerateEmailVariations(email, d).value;
      |v| == 4 && NoDuplicates(v) && forall i :: 0 <= i < 4 ==> OccursIn("@example.com", v[i])
  {
    UserExampleLiterals();
    VariationsDistinctOnDomain("user", "example.com", d);
  }

  lemma UserExampleLiterals()
    ensures "user@example.com" == "user" + "@" + "example.com"
    ensures "@example.com" == "@" + "example.com"
    ensures '@' !in "user" && '@' !in "example.com" && "user"[0] == 'u'
  {
  }

  /** An address ends with its `@` and domain. */
  lemma OnDomain(local: string, domain: string)
    ensures OccursIn("@" + domain, local + "@" + domain)
  {
    var s := local + "@" + domain;
    assert s == local + ("@" + domain);
    assert s[|local|..] == "@" + domain;
    assert OccursAt("@" + domain, s, |local|);
  }

  /** The duplicate: for the local part "test", "test.test" comes out twice. */
  lemma EmailVariationsCollide(domain: string, d: nat)
    requires '@' !in domain
    ensures var v := GenerateEmailVariations("test" + "@" + domain, d).value; v[1] == v[2]
  {
    EmailVariationsOf("test", domain, d);
    TestDotTest();
  }

  lemma TestDotTest()
    ensures "test" + ".test" == "test." + "test"
  {
  }

  // =====================================================================
  // generate_phone_variations
  // =====================================================================

  /** The end of a Python slice bound: past-the-end bounds are clamped. */
  function Clamp(n: nat, s: string): (k: nat)
    ensures k <= |s|
  {
    if n <= |s| then n else |s|
  }

  /** `base[:2]`, `base[2:6]` and `base[6:]`; together they are the base. */
  function PhoneSlices(basePhone: string): (r: (string, string, string))
    ensures r.0 + r.1 + r.2 == basePhone
  {
    var i, j := Clamp(2, basePhone), Clamp(6, basePhone);
    assert basePhone == basePhone[..i] + basePhone[i..j] + basePhone[j..];
    (basePhone[..i], basePhone[i..j], basePhone[j..])
  }

  /** `generate_phone_variations`: total for every string, because slices
      never fail. */
  function GeneratePhoneVariations(basePhone: string): (r: seq<string>)
    ensures |r| == 4
  {
    var (a, b, c) := PhoneSlices(basePhone);
    ["(" + a + ") " + b + "-" + c,
     "+55 " + a + " " + b + "-" + c,
     a + "." + b + "." + c,
     a + "-" + b + "-" + c]
  }

  lemma SeparatedDigits(p1: string, a: string, p2: string, b: string, p3: string, c: string)
    requires NoChar(p2, IsDigit) && NoChar(p3, IsDigit)
    ensures Filter(p1 + a + p2 + b + p3 + c, IsDigit) == Filter(p1, IsDigit) + Filter(a + b + c, IsDigit)
  {
    var fp1, fa, fb, fc := Filter(p1, IsDigit), Filter(a, IsDigit), Filter(b, IsDigit), Filter(c, IsDigit);
    assert Filter(p1 + a + p2, IsDigit) == fp1 + fa by {
      FilterAppend(p1, a, IsDigit);
      FilterSkip(p1 + a, p2, IsDigit);
    }
    assert Filter(p1 + a + p2 + b + p3, IsDigit) == fp1 + fa + fb by {
      FilterAppend(p1 + a + p2, b, IsDigit);
      FilterSkip(p1 + a + p2 + b, p3, IsDigit);
    }
    assert Filter(p1 + a + p2 + b + p3 + c, IsDigit) == fp1 + fa + fb + fc by {
      FilterAppend(p1 + a + p2 + b + p3, c, IsDigit);
    }
    assert Filter(a + b + c, IsDigit) == fa + fb + fc by {
      FilterAppend(a, b, IsDigit);
      FilterAppend(a + b, c, IsDigit);
    }
    ConcatAssoc(fp1, fa, fb, fc);
  }

  /** Appending characters outside the class leaves the filter alone. */
  lemma FilterSkip(x: string, y: string, p: char -> bool)
    requires NoChar(y, p)
    ensures Filter(x + y, p) == Filter(x, p)
  {
    FilterAppend(x, y, p);
    FilterNone(y, p);
    assert Filter(x, p) + [] == Filter(x, p);
  }

  lemma SeparatorsDigitFree()
    ensures NoChar(") ", IsDigit) && NoChar("-", IsDigit) && NoChar(" ", IsDigit) && NoChar(".", IsDigit)
    ensures Filter("(", IsDigit) == [] && Filter("+55 ", IsDigit) == "55" && Filter("", IsDigit) == []
  {
  }

  /** Stripping the non-digits of variations 1, 3 and 4 gives the digits of
      the base; variation 2 gains the country code 55 in front. */
  lemma PhoneVariationDigits(basePhone: string)
    ensures Filter(GeneratePhoneVariations(basePhone)[0], IsDigit) == Filter(basePhone, IsDigit)
    ensures Filter(GeneratePhoneVariations(basePhone)[1], IsDigit) == "55" + Filter(basePhone, IsDigit)
    ensures Filter(GeneratePhoneVariations(basePhone)[2], IsDigit) == Filter(basePhone, IsDigit)
    ensures Filter(GeneratePhoneVariations(basePhone)[3], IsDigit) == Filter(basePhone, IsDigit)
  {
    var (a, b, c) := PhoneSlices(basePhone);
    SeparatorsDigitFree();
    SeparatedDigits("(", a, ") ", b, "-", c);
    SeparatedDigits("+55 ", a, " ", b, "-", c);
    SeparatedDigits("", a, ".", b, ".", c);
    SeparatedDigits("", a, "-", b, "-", c);
    assert "" + a == a;
  }

  /** Variations 1, 3 and 4 pass `is_valid_phone` exactly when the base
      does; variation 2 passes exactly when the base has 8 or 9 digits, so
      never for a valid base. */
  lemma PhoneVariationsValidity(basePhone: string)
    ensures IsValidPhone(GeneratePhoneVariations(basePhone)[0]) == IsValidPhone(basePhone)
    ensures IsValidPhone(GeneratePhoneVariations(basePhone)[2]) == IsValidPhone(basePhone)
    ensures IsValidPhone(GeneratePhoneVariations(basePhone)[3]) == IsValidPhone(basePhone)
    ensures IsValidPhone(GeneratePhoneVariations(basePhone)[1]) <==> |Filter(basePhone, IsDigit)| in {8, 9}
    ensures IsValidPhone(basePhone) ==> !IsValidPhone(GeneratePhoneVariations(basePhone)[1])
  {
    PhoneVariationDigits(basePhone);
  }

  // =====================================================================
  // Fixed fixtures
  // =====================================================================

  /** `"x" * n`. */
  function Repeat(c: char, n: nat): (r: string)
    ensures |r| == n && forall i :: 0 <= i < n ==> r[i] == c
  {
    seq(n, i requires 0 <= i < n => c)
  }

  /** `generate_invalid_data`. */
  function GenerateInvalidData(): (m: map<string, string>)
    ensures m.Keys == {"invalid_email", "invalid_phone", "invalid_date", "empty_string",
                       "special_chars", "sql_injection", "xss_attack", "very_long_string"}
    ensures |m["very_long_string"]| == 1000
  {
    map[
      "invalid_email" := "invalid-email",
      "invalid_phone" := "123",
      "invalid_date" := "32/13/2023",
      "empty_string" := "",
      "special_chars" := "!@#$%^&*()",
      "sql_injection" := "'; DROP TABLE users; --",
      "xss_attack" := "<script>alert('XSS')</script>",
      "very_long_string" := Repeat('x', 1000)
    ]
  }

  /** The invalid email fixture does fail `is_valid_email`. */
  lemma InvalidEmailFixtureFails()
    ensures !IsValidEmail(GenerateInvalidData()["invalid_email"])
  {
    var m := GenerateInvalidData();
    assert m["invalid_email"] == "invalid" + "-email";
    RejectedEmailNoAt();
  }

  /** The invalid phone fixture does fail `is_valid_phone`. */
  lemma InvalidPhoneFixtureFails()
    ensures !IsValidPhone(GenerateInvalidData()["invalid_phone"])
  {
    var m := GenerateInvalidData();
    assert m["invalid_phone"] == "123";
    ShortPhoneExample();
  }

  /** `generate_edge_case_data`. */
  function GenerateEdgeCaseData(): (m: map<string, string>)
    ensures m.Keys == {"min_length_string", "max_length_string", "unicode_string", "numeric_string",
                       "mixed_case", "whitespace_only", "newline_string", "tab_string"}
    ensures |m["min_length_string"]| == 1 && |m["max_length_string"]| == 255
  {
    map[
      "min_length_string" := "a",
      "max_length_string" := Repeat('x', 255),
      "unicode_string" := "\U{6d4b}\U{8bd5}\U{5b57}\U{7b26}\U{4e32}",
      "numeric_string" := "12345",
      "mixed_case" := "TeStInG",
      "whitespace_only" := "   ",
      "newline_string" := "line1\nline2\nline3",
      "tab_string" := "col1\tcol2\tcol3"
    ]
  }

  /** Cleaning the whitespace-only fixture leaves nothing. */
  lemma WhitespaceFixtureCleansToEmpty()
    ensures DataHelper.CleanString(GenerateEdgeCaseData()["whitespace_only"]) == ""
  {
    RunsEmptyIff("   ", NotSpace);
  }
}
