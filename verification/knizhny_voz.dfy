/** The Knizhny Voz importer's treatment of one catalogue record: names freed of a stray quote,
    of titles and of a patronymic, split at " і " and put first name first; and the record's roles
    sorted into authors, translators and narrators. Fetching the catalogue is left out. */
module KnizhnyVoz {
  import opened Wrappers
  import opened Text
  import opened Dicts

  // ----- names -----

  /** First names that the catalogue sometimes shows after the surname. */
  const FirstNames: seq<string> := ["Крысціна", "Зміцер", "Сяргей"]

  /** Titles and a patronymic removed from names, in the order listed; the original keeps them in
      a set, whose iteration order is not specified. */
  const NonNameParts: seq<string> := [
    ", Свабодны Купалавец",
    "Народная артыстка Беларусі",
    "актор",
    "актрыса",
    "Народны артыст Беларусі",
    "Андрэевіч"
  ]

  /** The one name the catalogue joins with "і" under a shared surname. */
  const Couple := "Юя і Томас Вісландэры"

  /** A single double quote is removed; a name with none or with several keeps them. */
  function Unquote(s: string): string
  {
    if Count(s, '"') == 1 then Replace(s, "\"", "") else s
  }

  /** The names one raw entry stands for, before each is cleaned. */
  function SplitNames(name: string): (r: seq<string>)
    ensures |r| >= 1
  {
    if name == Couple then ["Юя Вісландэр", "Томас Вісландэр"]
    else if Contains(name, " і ") then Split(name, " і ")
    else [name]
  }

  /** One pass of the removal loop: drop a fragment, strip, and turn double spaces into single
      ones. */
  function RemovePart(name: string, part: string): string
    requires |part| > 0
  {
    Replace(Strip(Replace(name, part, "")), "  ", " ")
  }

  function RemoveParts(name: string, parts: seq<string>): string
    requires forall i | 0 <= i < |parts| :: |parts[i]| > 0
    decreases |parts|
  {
    if |parts| == 0 then name else RemoveParts(RemovePart(name, parts[0]), parts[1..])
  }

  /** Two words, the second a listed first name: the surname came first. */
  predicate SurnameFirst(name: string) {
    var words := Split(name, " ");
    |words| == 2 && words[1] in FirstNames
  }

  function PutFirstNameFirst(name: string): string
  {
    var words := Split(name, " ");
    if SurnameFirst(name) then words[1] + " " + words[0] else name
  }

  /** The cleaning of one name. */
  function CleanPiece(name: string): string
  {
    PutFirstNameFirst(RemoveParts(name, NonNameParts))
  }

  /** `_clean_name`: the clean names one raw entry stands for. */
  function CleanName(raw: string): (r: seq<string>)
    ensures |r| >= 1
  {
    var pieces := SplitNames(Unquote(Strip(raw)));
    seq(|pieces|, i requires 0 <= i < |pieces| => CleanPiece(pieces[i]))
  }

  /** Joining two pieces with a separator. */
  lemma JoinTwo(a: string, b: string, sep: string)
    ensures Join([a, b], sep) == a + sep + b
  {
    assert [a, b][1..] == [b];
  }

  /** Removing the only occurrence of a character: what is left reads back by putting the
      character in again. */
  lemma RemoveLoneChar(s: string, c: char)
    requires Count(s, c) == 1
    ensures var r := Join(Split(s, [c]), "");
      && c !in r && |r| == |s| - 1
      && exists k | 0 <= k <= |r| :: s == r[..k] + [c] + r[k..]
  {
    var parts := Split(s, [c]);
    SplitCount(s, c);
    SplitPiecesNoChar(s, c);
    JoinSplit(s, [c]);
    assert parts == [parts[0], parts[1]];
    JoinTwo(parts[0], parts[1], [c]);
    JoinTwo(parts[0], parts[1], "");
    var r := parts[0] + parts[1];
    assert Join(parts, "") == r;
    assert c !in parts[0] && c !in parts[1];
    var k := |parts[0]|;
    assert r[..k] == parts[0] && r[k..] == parts[1];
    assert s == r[..k] + [c] + r[k..];
  }

  /** A lone double quote is dropped and nothing else changes: the name reads back by putting the
      quote in again. Any other number of quotes leaves the name as it is. */
  lemma UnquoteLoneQuote(s: string)
    ensures Count(s, '"') == 1 ==> '"' !in Unquote(s) && |Unquote(s)| == |s| - 1
    ensures Count(s, '"') == 1 ==> exists k | 0 <= k <= |Unquote(s)| ::
      s == Unquote(s)[..k] + "\"" + Unquote(s)[k..]
    ensures Count(s, '"') != 1 ==> Unquote(s) == s
  {
    if Count(s, '"') == 1 {
      assert "\"" == ['"'];
      RemoveLoneChar(s, '"');
    }
  }

  /** Apart from the one listed couple, an entry stands for the pieces between its " і "
      separators: they join back into the entry and none holds the separator. */
  lemma SplitNamesPieces(name: string)
    requires name != Couple
    ensures Join(SplitNames(name), " і ") == name
    ensures forall i | 0 <= i < |SplitNames(name)| :: !Contains(SplitNames(name)[i], " і ")
  {
    if Contains(name, " і ") {
      JoinSplit(name, " і ");
      SplitPiecesFree(name, " і ");
    }
  }

  /** Text in which a character of `t` never occurs does not contain `t`. */
  lemma MissingCharNotContained(s: string, t: string, c: char)
    requires c in t && c !in s
    ensures !Contains(s, t)
  {
    var j :| 0 <= j < |t| && t[j] == c;
    forall i: nat | i <= |s| ensures !OccursAt(s, t, i) {
      if i + |t| <= |s| {
        assert s[i..i + |t|][j] == s[i + j] != c;
      }
    }
  }

  /** Text without two spaces in a row does not contain a double space. */
  lemma NoDoubleSpace(s: string)
    requires forall i | 0 <= i < |s| - 1 :: s[i] != ' ' || s[i + 1] != ' '
    ensures !Contains(s, "  ")
  {
    forall i: nat | i <= |s| ensures !OccursAt(s, "  ", i) {
      if i + 2 <= |s| {
        assert s[i..i + 2][0] == s[i] && s[i..i + 2][1] == s[i + 1];
      }
    }
  }

  /** A name the cleaning leaves alone: no fragment to remove, nothing to strip, no double space
      and not surname first. */
  predicate Clean(name: string) {
    && (forall i | 0 <= i < |NonNameParts| :: !Contains(name, NonNameParts[i]))
    && Strip(name) == name
    && !Contains(name, "  ")
    && !SurnameFirst(name)
  }

  lemma {:induction false} RemovePartsFixed(name: string, parts: seq<string>)
    requires forall i | 0 <= i < |parts| :: |parts[i]| > 0 && !Contains(name, parts[i])
    requires Strip(name) == name && !Contains(name, "  ")
    ensures RemoveParts(name, parts) == name
    decreases |parts|
  {
    if |parts| > 0 {
      ReplaceAbsent(name, parts[0], "");
      ReplaceAbsent(name, "  ", " ");
      assert RemovePart(name, parts[0]) == name;
      RemovePartsFixed(name, parts[1..]);
    }
  }

  /** Cleaning a clean name gives it back. */
  lemma CleanPieceFixed(name: string)
    requires Clean(name)
    ensures CleanPiece(name) == name
  {
    RemovePartsFixed(name, NonNameParts);
  }

  /** A name shown surname first reads back, split at its space, as the same two words the other
      way round. */
  lemma SwapReadsBack(name: string)
    requires SurnameFirst(name)
    ensures Split(PutFirstNameFirst(name), " ") == [Split(name, " ")[1], Split(name, " ")[0]]
  {
    var words := Split(name, " ");
    SplitPiecesNoChar(name, ' ');
    assert ' ' !in words[0] && ' ' !in words[1];
    assert Join([words[1], words[0]], " ") == words[1] + " " + words[0];
    SplitJoinChar([words[1], words[0]], ' ');
  }

  /** Two words, the second a listed first name, change places. */
  lemma SwapWords(surname: string, first: string)
    requires ' ' !in surname && ' ' !in first && first in FirstNames
    ensures PutFirstNameFirst(surname + " " + first) == first + " " + surname
  {
    JoinTwo(surname, first, " ");
    SplitJoinChar([surname, first], ' ');
  }

  /** "Шчуцкі Сяргей" is put first name first. */
  lemma SwapExample(name: string)
    requires name == "Шчуцкі Сяргей"
    ensures PutFirstNameFirst(name) == "Сяргей Шчуцкі"
  {
    assert name == "Шчуцкі" + " " + "Сяргей";
    SwapWords("Шчуцкі", "Сяргей");
  }

  /** A name with no ",", "Н", "А" or "к" holds none of the removed fragments. */
  lemma FragmentFree(name: string)
    requires ',' !in name && 'Н' !in name && 'А' !in name && 'к' !in name
    ensures forall i | 0 <= i < |NonNameParts| :: !Contains(name, NonNameParts[i])
  {
    MissingCharNotContained(name, NonNameParts[0], ',');
    MissingCharNotContained(name, NonNameParts[1], 'Н');
    MissingCharNotContained(name, NonNameParts[2], 'к');
    MissingCharNotContained(name, NonNameParts[3], 'к');
    MissingCharNotContained(name, NonNameParts[4], 'Н');
    MissingCharNotContained(name, NonNameParts[5], 'А');
  }

  /** Two words, the second not a listed first name, are not surname first. */
  lemma FirstNameFirst(first: string, surname: string)
    requires ' ' !in first && ' ' !in surname && surname !in FirstNames
    ensures !SurnameFirst(first + " " + surname)
  {
    JoinTwo(first, surname, " ");
    SplitJoinChar([first, surname], ' ');
  }

  /** A name shown surname first, with nothing else to clean, is only put first name first. */
  lemma CleanPieceSwaps(name: string)
    requires forall i | 0 <= i < |NonNameParts| :: !Contains(name, NonNameParts[i])
    requires Strip(name) == name && !Contains(name, "  ")
    ensures CleanPiece(name) == PutFirstNameFirst(name)
  {
    RemovePartsFixed(name, NonNameParts);
  }

  // ----- roles -----

  /** One entry of a record's `roles`: the role as shown and the raw names under it. */
  datatype Role = Role(role: string, names: seq<string>)

  /** The fields of a catalogue record that the importer reads. */
  datatype Record = Record(
    id: string,
    name: string,
    description: string,
    author: string,
    roles: seq<Role>,
    imageUri: string)

  /** Every raw name cleaned, the clean names in order. */
  function CleanNames(raw: seq<string>): seq<string>
    decreases |raw|
  {
    if |raw| == 0 then [] else CleanName(raw[0]) + CleanNames(raw[1..])
  }

  /** The `roles` dictionary of a record: each role's title lower-cased, with the clean names under
      it; a title seen again takes the later names. */
  function RoleTable(roles: seq<Role>): (r: Table<string, seq<string>>)
    ensures UniqueKeys(r)
    ensures Keys(r) == set i | 0 <= i < |roles| :: Lower(roles[i].role)
    decreases |roles|
  {
    if |roles| == 0 then []
    else
      var n := |roles| - 1;
      var before := RoleTable(roles[..n]);
      PutKeys(before, Lower(roles[n].role), CleanNames(roles[n].names));
      assert forall i | 0 <= i < n :: roles[..n][i] == roles[i];
      Put(before, Lower(roles[n].role), CleanNames(roles[n].names))
  }

  /** A title's entry holds the names of the last role with that title. */
  lemma {:induction false} RoleTableLast(roles: seq<Role>, i: nat)
    requires i < |roles|
    requires forall j | i < j < |roles| :: Lower(roles[j].role) != Lower(roles[i].role)
    ensures Get(RoleTable(roles), Lower(roles[i].role)) == Some(CleanNames(roles[i].names))
    decreases |roles|
  {
    var n := |roles| - 1;
    var key := Lower(roles[n].role);
    var before := RoleTable(roles[..n]);
    if i == n {
      PutGetSame(before, key, CleanNames(roles[n].names));
    } else {
      PutGetOther(before, key, CleanNames(roles[n].names), Lower(roles[i].role));
      assert roles[..n][i] == roles[i];
      RoleTableLast(roles[..n], i);
    }
  }

  /** A title no role has is not in the table. */
  lemma RoleTableAbsent(roles: seq<Role>, key: string)
    requires forall j | 0 <= j < |roles| :: Lower(roles[j].role) != key
    ensures Get(RoleTable(roles), key) == None
  {
    GetAbsent(RoleTable(roles), key);
  }

  // ----- classification -----

  /** A role whose names are the translators. */
  predicate Translation(role: string) {
    Contains(role, "пераклад")
  }

  /** A role whose names are narrators: it reads or performs, and is not a translation. */
  predicate Narration(role: string) {
    !Translation(role) && (Contains(role, "чытае") || Contains(role, "чытаюць") || Contains(role, "выконвае"))
  }

  /** Strictly ascending: sorted and without repeats, as `sorted(set(...))` is. */
  predicate Sorted(xs: seq<string>) {
    forall i, j | 0 <= i < j < |xs| :: Less(xs[i], xs[j])
  }

  lemma LessThanAll(xs: seq<string>, x: string)
    requires Sorted(xs) && |xs| > 0 && Less(x, xs[0])
    ensures Sorted([x] + xs)
  {
    forall j | 0 <= j < |xs| ensures Less(x, xs[j]) {
      if j > 0 {
        LessTransitive(x, xs[0], xs[j]);
      }
    }
  }

  lemma HeadBelow(h: string, rest: seq<string>, xs: seq<string>, x: string)
    requires Sorted([h] + xs) && Sorted(rest) && Less(h, x)
    requires forall y :: y in rest <==> y in xs || y == x
    ensures Sorted([h] + rest)
  {
    forall j | 0 <= j < |rest| ensures Less(h, rest[j]) {
      if rest[j] != x {
        assert rest[j] in xs;
        var k :| 0 <= k < |xs| && xs[k] == rest[j];
        assert ([h] + xs)[0] == h && ([h] + xs)[k + 1] == rest[j];
      }
    }
  }

  /** Adding a name to a sorted list of names without repeats. */
  function Insert(xs: seq<string>, x: string): (r: seq<string>)
    requires Sorted(xs)
    ensures Sorted(r)
    ensures forall y :: y in r <==> y in xs || y == x
    decreases |xs|
  {
    if |xs| == 0 then [x]
    else if x == xs[0] then xs
    else if Less(x, xs[0]) then
      LessThanAll(xs, x);
      [x] + xs
    else
      LessTotal(x, xs[0]);
      assert xs == [xs[0]] + xs[1..];
      var rest := Insert(xs[1..], x);
      HeadBelow(xs[0], rest, xs[1..], x);
      [xs[0]] + rest
  }

  /** Adding several names. */
  function InsertAll(xs: seq<string>, names: seq<string>): (r: seq<string>)
    requires Sorted(xs)
    ensures Sorted(r)
    ensures forall y :: y in r <==> y in xs || y in names
    decreases |names|
  {
    if |names| == 0 then xs
    else
      assert forall y :: y in names <==> y == names[0] || y in names[1..];
      InsertAll(Insert(xs, names[0]), names[1..])
  }

  /** Two sorted lists without repeats holding the same names are the same list: the narrators
      are the one sorted listing of their set. */
  lemma {:induction false} SortedUnique(a: seq<string>, b: seq<string>)
    requires Sorted(a) && Sorted(b)
    requires forall y :: y in a <==> y in b
    ensures a == b
    decreases |a|
  {
    if |a| > 0 {
      assert a[0] in a;
    }
    if |b| > 0 {
      assert b[0] in b;
    }
    if |a| > 0 && |b| > 0 {
      if a[0] != b[0] {
        assert a[0] in a && b[0] in b;
        var i :| 0 <= i < |b| && b[i] == a[0];
        var j :| 0 <= j < |a| && a[j] == b[0];
        LessTransitive(a[0], b[0], a[0]);
        LessIrreflexive(a[0]);
      }
      forall y ensures y in a[1..] <==> y in b[1..] {
        if y in a[1..] {
          var k :| 0 <= k < |a[1..]| && a[1..][k] == y;
          assert Less(a[0], a[k + 1]);
          LessIrreflexive(y);
          assert y in b && y != b[0];
          assert b == [b[0]] + b[1..];
        }
        if y in b[1..] {
          var k :| 0 <= k < |b[1..]| && b[1..][k] == y;
          assert Less(b[0], b[k + 1]);
          LessIrreflexive(y);
          assert y in a && y != a[0];
          assert a == [a[0]] + a[1..];
        }
      }
      SortedUnique(a[1..], b[1..]);
      assert a == [a[0]] + a[1..] && b == [b[0]] + b[1..];
    }
  }

  /** The loop over the role table: a translation role's names replace the translators; a
      narration role's names join the narrators. */
  function Classify(d: Table<string, seq<string>>, translators: seq<string>, narrators: seq<string>): (r: (seq<string>, seq<string>))
    requires Sorted(narrators)
    ensures Sorted(r.1)
    decreases |d|
  {
    if |d| == 0 then (translators, narrators)
    else if Translation(d[0].0) then Classify(d[1..], d[0].1, narrators)
    else if Narration(d[0].0) then Classify(d[1..], translators, InsertAll(narrators, d[0].1))
    else Classify(d[1..], translators, narrators)
  }

  /** The translators are the names of the last translation role in the table. */
  lemma {:induction false} ClassifyLastTranslation(d: Table<string, seq<string>>, translators: seq<string>, narrators: seq<string>, i: nat)
    requires Sorted(narrators)
    requires i < |d| && Translation(d[i].0)
    requires forall j | i < j < |d| :: !Translation(d[j].0)
    ensures Classify(d, translators, narrators).0 == d[i].1
    decreases |d|
  {
    if i == 0 {
      ClassifyNoTranslation(d[1..], d[0].1, narrators);
    } else if Translation(d[0].0) {
      ClassifyLastTranslation(d[1..], d[0].1, narrators, i - 1);
    } else if Narration(d[0].0) {
      ClassifyLastTranslation(d[1..], translators, InsertAll(narrators, d[0].1), i - 1);
    } else {
      ClassifyLastTranslation(d[1..], translators, narrators, i - 1);
    }
  }

  /** Without a translation role the translators stay as they were. */
  lemma {:induction false} ClassifyNoTranslation(d: Table<string, seq<string>>, translators: seq<string>, narrators: seq<string>)
    requires Sorted(narrators)
    requires forall j | 0 <= j < |d| :: !Translation(d[j].0)
    ensures Classify(d, translators, narrators).0 == translators
    decreases |d|
  {
    if |d| > 0 {
      assert !Translation(d[0].0);
      if Narration(d[0].0) {
        ClassifyNoTranslation(d[1..], translators, InsertAll(narrators, d[0].1));
      } else {
        ClassifyNoTranslation(d[1..], translators, narrators);
      }
    }
  }

  /** The narrators are the names under narration roles, each once. */
  lemma {:induction false} ClassifyNarrators(d: Table<string, seq<string>>, translators: seq<string>, narrators: seq<string>, y: string)
    requires Sorted(narrators)
    ensures y in Classify(d, translators, narrators).1 <==>
      (y in narrators || exists i | 0 <= i < |d| :: Narration(d[i].0) && y in d[i].1)
    decreases |d|
  {
    if |d| > 0 {
      var next := if Narration(d[0].0) then InsertAll(narrators, d[0].1) else narrators;
      var t := if Translation(d[0].0) then d[0].1 else translators;
      assert Classify(d, translators, narrators) == Classify(d[1..], t, next);
      ClassifyNarrators(d[1..], t, next, y);
      if exists i | 0 <= i < |d[1..]| :: Narration(d[1..][i].0) && y in d[1..][i].1 {
        var i :| 0 <= i < |d[1..]| && Narration(d[1..][i].0) && y in d[1..][i].1;
        assert d[i + 1] == d[1..][i];
      }
      if exists i | 0 <= i < |d| :: Narration(d[i].0) && y in d[i].1 {
        var i :| 0 <= i < |d| && Narration(d[i].0) && y in d[i].1;
        if i > 0 {
          assert d[1..][i - 1] == d[i];
        }
      }
    }
  }

  // ----- the record -----

  /** What the importer hands on for one record. */
  datatype Extracted = Extracted(
    title: string,
    description: string,
    authors: seq<string>,
    narrators: seq<string>,
    translators: seq<string>,
    coverUrl: string,
    link: string)

  /** The record's title and description stripped, its people sorted into roles, its cover and
      its page. */
  function Extract(rec: Record): (r: Extracted)
    ensures Sorted(r.narrators)
    ensures r.title == Strip(rec.name) && r.description == Strip(rec.description)
    ensures StartsWith(r.link, "https://knizhnyvoz.by/app/book/")
  {
    var table := RoleTable(rec.roles);
    var authors := match Get(table, "аўтар")
      case Some(names) => names
      case None => CleanName(rec.author);
    var people := Classify(table, [], []);
    var link := "https://knizhnyvoz.by/app/book/" + rec.id;
    assert link[..|"https://knizhnyvoz.by/app/book/"|] == "https://knizhnyvoz.by/app/book/";
    Extracted(Strip(rec.name), Strip(rec.description), authors, people.1, people.0, rec.imageUri, link)
  }

  /** With an author role the authors are its names, from the last role so titled. */
  lemma ExtractAuthors(rec: Record, i: nat)
    requires i < |rec.roles| && Lower(rec.roles[i].role) == "аўтар"
    requires forall j | i < j < |rec.roles| :: Lower(rec.roles[j].role) != "аўтар"
    ensures Extract(rec).authors == CleanNames(rec.roles[i].names)
  {
    RoleTableLast(rec.roles, i);
  }

  /** Without one they are the record's `author`, cleaned. */
  lemma ExtractAuthorsDefault(rec: Record)
    requires forall j | 0 <= j < |rec.roles| :: Lower(rec.roles[j].role) != "аўтар"
    ensures Extract(rec).authors == CleanName(rec.author)
  {
    RoleTableAbsent(rec.roles, "аўтар");
  }

  /** The translators and narrators come from classifying the role table. */
  lemma ExtractPeople(rec: Record)
    ensures Extract(rec).translators == Classify(RoleTable(rec.roles), [], []).0
    ensures Extract(rec).narrators == Classify(RoleTable(rec.roles), [], []).1
  {
  }

  /** The translators are the names of the last translation role in the role table. */
  lemma ExtractTranslators(rec: Record, i: nat)
    requires var d := RoleTable(rec.roles);
      i < |d| && Translation(d[i].0) && forall j | i < j < |d| :: !Translation(d[j].0)
    ensures Extract(rec).translators == RoleTable(rec.roles)[i].1
  {
    ExtractPeople(rec);
    ClassifyLastTranslation(RoleTable(rec.roles), [], [], i);
  }

  /** Without a translation role there are no translators. */
  lemma ExtractNoTranslators(rec: Record)
    requires var d := RoleTable(rec.roles);
      forall j | 0 <= j < |d| :: !Translation(d[j].0)
    ensures Extract(rec).translators == []
  {
    ExtractPeople(rec);
    ClassifyNoTranslation(RoleTable(rec.roles), [], []);
  }

  /** The narrators are, sorted and each once, exactly the names under narration roles. */
  lemma ExtractNarrators(rec: Record, y: string)
    ensures var d := RoleTable(rec.roles);
      y in Extract(rec).narrators <==> exists i | 0 <= i < |d| :: Narration(d[i].0) && y in d[i].1
  {
    ExtractPeople(rec);
    ClassifyNarrators(RoleTable(rec.roles), [], [], y);
  }
}
