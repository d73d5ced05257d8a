/** The helpers behind the catalogue's data file: people and books with integer ids, the merge
    of listening links, and the transliteration that names cover images. The data object is
    mutated in place by the original; here each operation returns the updated values. */
module Books {
  import opened Wrappers
  import opened Text

  datatype Person = Person(id: int, name: string)

  /** A link to a page where the book can be heard; `type` is `kind` here, and a null url is
      `None`. */
  datatype Link = Link(kind: string, url: Option<string>)

  /** A book; the three credit lists hold person ids. */
  datatype Book = Book(id: int, title: string, description: string, authors: seq<int>,
                       narrators: seq<int>, translators: seq<int>, links: seq<Link>,
                       coverImage: string)

  datatype LinkType = LinkType(name: string, caption: string, iconUrl: string)

  datatype BooksData = BooksData(people: seq<Person>, books: seq<Book>, linkTypes: seq<LinkType>)

  // ----- ids -----

  /** The `max_id` loops: the largest id, or 0 when no id is larger. */
  function MaxId(ids: seq<int>): (m: int)
    ensures m >= 0
    ensures forall k | 0 <= k < |ids| :: ids[k] <= m
    ensures m == 0 || m in ids
  {
    if |ids| == 0 then 0
    else
      var m := MaxId(ids[..|ids| - 1]);
      assert ids == ids[..|ids| - 1] + [ids[|ids| - 1]];
      if ids[|ids| - 1] > m then ids[|ids| - 1] else m
  }

  function PersonIds(people: seq<Person>): (r: seq<int>)
    ensures |r| == |people| && forall k | 0 <= k < |people| :: r[k] == people[k].id
  {
    seq(|people|, k requires 0 <= k < |people| => people[k].id)
  }

  function Names(people: seq<Person>): (r: seq<string>)
    ensures |r| == |people| && forall k | 0 <= k < |people| :: r[k] == people[k].name
  {
    seq(|people|, k requires 0 <= k < |people| => people[k].name)
  }

  predicate UniqueIds(people: seq<Person>) {
    forall i, j | 0 <= i < j < |people| :: people[i].id != people[j].id
  }

  predicate UniqueNames(people: seq<Person>) {
    forall i, j | 0 <= i < j < |people| :: people[i].name != people[j].name
  }

  // ----- people -----

  /** The index of the first person with exactly this name. */
  function FirstNamed(people: seq<Person>, name: string): (r: Option<nat>)
    ensures r.Some? ==> r.value < |people| && people[r.value].name == name
    ensures r.Some? ==> forall j | 0 <= j < r.value :: people[j].name != name
    ensures r.None? <==> name !in Names(people)
  {
    if |people| == 0 then None
    else if people[0].name == name then Some(0)
    else
      var r := FirstNamed(people[1..], name);
      assert Names(people) == [people[0].name] + Names(people[1..]);
      if r.None? then None else Some(r.value + 1)
  }

  /** A name is credited as `id` in `people`: the first person with that name has that id. */
  predicate Resolves(people: seq<Person>, name: string, id: int) {
    FirstNamed(people, name).Some? && people[FirstNamed(people, name).value].id == id
  }

  /** The first index holding the name is what `FirstNamed` finds. */
  lemma {:induction false} FirstNamedAt(people: seq<Person>, name: string, k: nat)
    requires k < |people| && people[k].name == name
    requires forall j | 0 <= j < k :: people[j].name != name
    ensures FirstNamed(people, name) == Some(k)
  {
    if k > 0 {
      FirstNamedAt(people[1..], name, k - 1);
    }
  }

  /** Appending people does not change who a name already found resolves to. */
  lemma FirstNamedPrefix(people: seq<Person>, more: seq<Person>, name: string)
    requires FirstNamed(people, name).Some?
    ensures FirstNamed(people + more, name) == FirstNamed(people, name)
  {
    var k := FirstNamed(people, name).value;
    FirstNamedAt(people + more, name, k);
  }

  /** `_get_or_add_person`: the first person with exactly this name, the list unchanged; or, for
      a name nobody has, a new person with the next free id appended to the list. */
  function GetOrAddPerson(people: seq<Person>, name: string): (r: (seq<Person>, Person))
    ensures r.1.name == name
    ensures name in Names(people) ==> r.0 == people && r.1 == people[FirstNamed(people, name).value]
    ensures name !in Names(people) ==> r.0 == people + [r.1]
    ensures name !in Names(people) ==> forall k | 0 <= k < |people| :: people[k].id < r.1.id
    ensures Resolves(r.0, name, r.1.id)
    ensures UniqueIds(people) ==> UniqueIds(r.0)
    ensures UniqueNames(people) ==> UniqueNames(r.0)
  {
    match FirstNamed(people, name)
    case Some(k) => (people, people[k])
    case None =>
      var person := Person(MaxId(PersonIds(people)) + 1, name);
      assert forall k | 0 <= k < |people| :: people[k].id == PersonIds(people)[k];
      assert forall k | 0 <= k < |people| :: people[k].name == Names(people)[k];
      FirstNamedAt(people + [person], name, |people|);
      (people + [person], person)
  }

  /** The new person's id is `1 + max` of the ids before it, 1 for an empty list. */
  lemma NewPersonId(people: seq<Person>, name: string)
    requires name !in Names(people)
    ensures GetOrAddPerson(people, name).1.id == MaxId(PersonIds(people)) + 1
    ensures |people| == 0 ==> GetOrAddPerson(people, name).1.id == 1
  {
  }

  /** Asking for the same name again returns the same person and adds nobody. */
  lemma GetOrAddIdempotent(people: seq<Person>, name: string)
    ensures var (after, person) := GetOrAddPerson(people, name);
      GetOrAddPerson(after, name) == (after, person)
  {
    var (after, person) := GetOrAddPerson(people, name);
    assert Names(after)[FirstNamed(after, name).value] == name;
  }

  /** `_to_list_of_ids`: one id per name, in order, adding the people not yet listed. */
  function ToListOfIds(people: seq<Person>, names: seq<string>): (r: (seq<Person>, seq<int>))
    ensures |r.1| == |names|
    ensures |people| <= |r.0| && r.0[..|people|] == people
    decreases |names|
  {
    if |names| == 0 then (people, [])
    else
      var (p1, person) := GetOrAddPerson(people, names[0]);
      var (p2, ids) := ToListOfIds(p1, names[1..]);
      assert p2[..|people|] == p1[..|people|];
      (p2, [person.id] + ids)
  }

  /** Appending people keeps every credit that already resolves. */
  lemma ResolvesPrefix(people: seq<Person>, more: seq<Person>, name: string, id: int)
    requires Resolves(people, name, id)
    ensures Resolves(people + more, name, id)
  {
    FirstNamedPrefix(people, more, name);
    var k := FirstNamed(people, name).value;
    assert (people + more)[k] == people[k];
  }

  /** Each name is credited with the id of the first person of the final list bearing it. */
  lemma {:induction false} ToListOfIdsResolves(people: seq<Person>, names: seq<string>, i: nat)
    requires i < |names|
    ensures var (after, ids) := ToListOfIds(people, names); Resolves(after, names[i], ids[i])
    decreases |names|
  {
    var (p1, person) := GetOrAddPerson(people, names[0]);
    var (p2, ids) := ToListOfIds(p1, names[1..]);
    assert ToListOfIds(people, names) == (p2, [person.id] + ids);
    if i == 0 {
      assert p2 == p1 + p2[|p1|..];
      ResolvesPrefix(p1, p2[|p1|..], names[0], person.id);
    } else {
      ToListOfIdsResolves(p1, names[1..], i - 1);
      assert names[1..][i - 1] == names[i];
    }
  }

  /** Everyone added bears one of the names. */
  lemma {:induction false} ToListOfIdsAddsNamed(people: seq<Person>, names: seq<string>, k: nat)
    requires |people| <= k < |ToListOfIds(people, names).0|
    ensures ToListOfIds(people, names).0[k].name in names
    decreases |names|
  {
    var (p1, person) := GetOrAddPerson(people, names[0]);
    var (p2, ids) := ToListOfIds(p1, names[1..]);
    if k >= |p1| {
      ToListOfIdsAddsNamed(p1, names[1..], k);
    } else {
      assert p2[k] == p1[k];
    }
  }

  /** Converting names keeps ids unique and names unique. */
  lemma {:induction false} ToListOfIdsUnique(people: seq<Person>, names: seq<string>)
    ensures UniqueIds(people) ==> UniqueIds(ToListOfIds(people, names).0)
    ensures UniqueNames(people) ==> UniqueNames(ToListOfIds(people, names).0)
    decreases |names|
  {
    if |names| > 0 {
      ToListOfIdsUnique(GetOrAddPerson(people, names[0]).0, names[1..]);
    }
  }

  /** Names that are all listed already add nobody. */
  lemma {:induction false} ListedAddsNobody(people: seq<Person>, names: seq<string>)
    requires forall i | 0 <= i < |names| :: names[i] in Names(people)
    ensures ToListOfIds(people, names).0 == people
    decreases |names|
  {
    if |names| > 0 {
      ListedAddsNobody(people, names[1..]);
    }
  }

  /** A name resolves to a single id. */
  lemma ResolvesOnce(people: seq<Person>, name: string, a: int, b: int)
    requires Resolves(people, name, a) && Resolves(people, name, b)
    ensures a == b
  {
  }

  /** Converting the same names a second time gives the same ids and adds nobody. */
  lemma ToListOfIdsIdempotent(people: seq<Person>, names: seq<string>)
    ensures var (after, ids) := ToListOfIds(people, names);
      ToListOfIds(after, names) == (after, ids)
  {
    var (after, ids) := ToListOfIds(people, names);
    forall i | 0 <= i < |names| ensures names[i] in Names(after) {
      ToListOfIdsResolves(people, names, i);
      assert Names(after)[FirstNamed(after, names[i]).value] == names[i];
    }
    ListedAddsNobody(after, names);
    var (again, ids2) := ToListOfIds(after, names);
    assert again == after;
    forall i | 0 <= i < |names| ensures ids2[i] == ids[i] {
      ToListOfIdsResolves(people, names, i);
      ToListOfIdsResolves(after, names, i);
      ResolvesOnce(after, names[i], ids2[i], ids[i]);
    }
    assert ids2 == ids;
  }

  // ----- links -----

  function Kinds(links: seq<Link>): (r: seq<string>)
    ensures |r| == |links| && forall k | 0 <= k < |links| :: r[k] == links[k].kind
  {
    seq(|links|, k requires 0 <= k < |links| => links[k].kind)
  }

  /** The inner loop of `_merge_links`: every existing link of the incoming link's type takes its
      url. */
  function Overwrite(links: seq<Link>, link: Link): (r: seq<Link>)
    ensures |r| == |links|
    ensures forall k | 0 <= k < |links| ::
      r[k] == if links[k].kind == link.kind then links[k].(url := link.url) else links[k]
  {
    seq(|links|, k requires 0 <= k < |links| =>
      if links[k].kind == link.kind then links[k].(url := link.url) else links[k])
  }

  /** One incoming link: the links of its type take its url, and it is appended when there is
      none of its type. */
  function MergeLink(links: seq<Link>, link: Link): (r: seq<Link>)
    ensures |links| <= |r| <= |links| + 1
    ensures |r| == |links| + 1 <==> link.kind !in Kinds(links)
    ensures |r| == |links| + 1 ==> r[|links|] == link
    ensures forall k | 0 <= k < |links| :: r[k].kind == links[k].kind
    ensures forall k | 0 <= k < |links| :: links[k].kind != link.kind ==> r[k] == links[k]
    ensures forall k | 0 <= k < |r| :: r[k].kind == link.kind ==> r[k].url == link.url
    ensures link.kind in Kinds(r)
  {
    if link.kind in Kinds(links) then
      var k :| 0 <= k < |links| && Kinds(links)[k] == link.kind;
      assert Kinds(Overwrite(links, link))[k] == link.kind;
      Overwrite(links, link)
    else
      var r := links + [link];
      assert Kinds(r)[|links|] == link.kind;
      r
  }

  /** The url of the last incoming link of this type. */
  function LastUrl(incoming: seq<Link>, kind: string): Option<string>
    requires kind in Kinds(incoming)
  {
    assert Kinds(incoming) == [incoming[0].kind] + Kinds(incoming[1..]);
    if kind in Kinds(incoming[1..]) then LastUrl(incoming[1..], kind) else incoming[0].url
  }

  /** `_merge_links`: each incoming link in turn. No link is removed or moved; links of types
      that do not come in are untouched; every link of a type that comes in ends with the url of
      the last incoming link of that type; a link is appended only for a type not yet present;
      and every incoming type is present afterwards. */
  function MergeLinks(links: seq<Link>, incoming: seq<Link>): (r: seq<Link>)
    ensures |links| <= |r|
    ensures forall k | 0 <= k < |links| :: r[k].kind == links[k].kind
    ensures forall k | 0 <= k < |links| :: links[k].kind !in Kinds(incoming) ==> r[k] == links[k]
    ensures forall k | 0 <= k < |r| :: r[k].kind in Kinds(incoming) ==> r[k].url == LastUrl(incoming, r[k].kind)
    ensures forall k | |links| <= k < |r| :: r[k].kind in Kinds(incoming) && r[k].kind !in Kinds(links)
    ensures forall t | t in Kinds(incoming) :: t in Kinds(r)
    decreases |incoming|
  {
    if |incoming| == 0 then links
    else
      var m := MergeLink(links, incoming[0]);
      var r := MergeLinks(m, incoming[1..]);
      assert Kinds(incoming) == [incoming[0].kind] + Kinds(incoming[1..]);
      StepKeeps(links, incoming, m, r);
      StepLastWins(links, incoming, m, r);
      StepAppends(links, incoming, m, r);
      StepCovers(links, incoming, m, r);
      r
  }

  // The induction step of `MergeLinks`, one conclusion at a time, from the contract of the
  // first link's merge and of the merge of the rest.

  lemma StepKeeps(links: seq<Link>, incoming: seq<Link>, m: seq<Link>, r: seq<Link>)
    requires |incoming| > 0 && m == MergeLink(links, incoming[0])
    requires Kinds(incoming) == [incoming[0].kind] + Kinds(incoming[1..])
    requires |m| <= |r|
    requires forall k | 0 <= k < |m| :: r[k].kind == m[k].kind
    requires forall k | 0 <= k < |m| :: m[k].kind !in Kinds(incoming[1..]) ==> r[k] == m[k]
    ensures |links| <= |r|
    ensures forall k | 0 <= k < |links| :: r[k].kind == links[k].kind
    ensures forall k | 0 <= k < |links| :: links[k].kind !in Kinds(incoming) ==> r[k] == links[k]
  {
  }

  lemma StepLastWins(links: seq<Link>, incoming: seq<Link>, m: seq<Link>, r: seq<Link>)
    requires |incoming| > 0 && m == MergeLink(links, incoming[0])
    requires Kinds(incoming) == [incoming[0].kind] + Kinds(incoming[1..])
    requires |m| <= |r|
    requires forall k | 0 <= k < |m| :: r[k].kind == m[k].kind
    requires forall k | 0 <= k < |m| :: m[k].kind !in Kinds(incoming[1..]) ==> r[k] == m[k]
    requires forall k | 0 <= k < |r| :: r[k].kind in Kinds(incoming[1..]) ==> r[k].url == LastUrl(incoming[1..], r[k].kind)
    requires forall k | |m| <= k < |r| :: r[k].kind in Kinds(incoming[1..])
    ensures forall k | 0 <= k < |r| :: r[k].kind in Kinds(incoming) ==> r[k].url == LastUrl(incoming, r[k].kind)
  {
    forall k | 0 <= k < |r| && r[k].kind in Kinds(incoming) ensures r[k].url == LastUrl(incoming, r[k].kind) {
      var t := r[k].kind;
      if t in Kinds(incoming[1..]) {
        assert LastUrl(incoming, t) == LastUrl(incoming[1..], t);
      } else {
        assert t == incoming[0].kind;
        assert LastUrl(incoming, t) == incoming[0].url;
        assert k < |m|;
        assert r[k] == m[k];
      }
    }
  }

  lemma StepAppends(links: seq<Link>, incoming: seq<Link>, m: seq<Link>, r: seq<Link>)
    requires |incoming| > 0 && m == MergeLink(links, incoming[0])
    requires Kinds(incoming) == [incoming[0].kind] + Kinds(incoming[1..])
    requires |m| <= |r|
    requires forall k | 0 <= k < |m| :: r[k].kind == m[k].kind
    requires forall k | |m| <= k < |r| :: r[k].kind in Kinds(incoming[1..]) && r[k].kind !in Kinds(m)
    ensures forall k | |links| <= k < |r| :: r[k].kind in Kinds(incoming) && r[k].kind !in Kinds(links)
  {
    forall k | |links| <= k < |r| ensures r[k].kind in Kinds(incoming) && r[k].kind !in Kinds(links) {
      if k < |m| {
        assert m[k] == incoming[0];
      } else {
        forall j | 0 <= j < |links| ensures Kinds(links)[j] != r[k].kind {
          assert Kinds(m)[j] == Kinds(links)[j];
        }
      }
    }
  }

  lemma StepCovers(links: seq<Link>, incoming: seq<Link>, m: seq<Link>, r: seq<Link>)
    requires |incoming| > 0 && m == MergeLink(links, incoming[0])
    requires Kinds(incoming) == [incoming[0].kind] + Kinds(incoming[1..])
    requires |m| <= |r|
    requires forall k | 0 <= k < |m| :: r[k].kind == m[k].kind
    requires forall t | t in Kinds(incoming[1..]) :: t in Kinds(r)
    ensures forall t | t in Kinds(incoming) :: t in Kinds(r)
  {
    var t := incoming[0].kind;
    var j :| 0 <= j < |m| && Kinds(m)[j] == t;
    assert Kinds(r)[j] == t;
  }

  /** Nothing is appended when every incoming type is already present. */
  lemma {:induction false} MergeLinksNoAppend(links: seq<Link>, incoming: seq<Link>)
    requires forall t | t in Kinds(incoming) :: t in Kinds(links)
    ensures |MergeLinks(links, incoming)| == |links|
    decreases |incoming|
  {
    if |incoming| > 0 {
      var m := MergeLink(links, incoming[0]);
      assert Kinds(incoming) == [incoming[0].kind] + Kinds(incoming[1..]);
      assert Kinds(m) == Kinds(links);
      MergeLinksNoAppend(m, incoming[1..]);
    }
  }

  /** Links that already carry every incoming type with its last url are left as they are. */
  lemma MergeLinksSettled(links: seq<Link>, incoming: seq<Link>)
    requires forall t | t in Kinds(incoming) :: t in Kinds(links)
    requires forall k | 0 <= k < |links| :: links[k].kind in Kinds(incoming) ==> links[k].url == LastUrl(incoming, links[k].kind)
    ensures MergeLinks(links, incoming) == links
  {
    var r := MergeLinks(links, incoming);
    MergeLinksNoAppend(links, incoming);
    forall k | 0 <= k < |links| ensures r[k] == links[k] {
      if links[k].kind in Kinds(incoming) {
        assert r[k].url == links[k].url;
      } else {
        assert r[k] == links[k];
      }
    }
    assert r == links;
  }

  /** Merging the same links a second time changes nothing. */
  lemma MergeLinksIdempotent(links: seq<Link>, incoming: seq<Link>)
    ensures MergeLinks(MergeLinks(links, incoming), incoming) == MergeLinks(links, incoming)
  {
    MergeLinksSettled(MergeLinks(links, incoming), incoming);
  }

  // ----- transliteration -----

  /** The `CYRILLIC_TO_LATIN` table for lower-case letters; `None` outside it. The hard and soft
      signs map to nothing. */
  function Latin(c: char): (r: Option<string>)
    ensures r.Some? ==> forall k | 0 <= k < |r.value| :: 'a' <= r.value[k] <= 'z'
  {
    match c
    case 'а' => Some("a") case 'б' => Some("b") case 'в' => Some("v") case 'г' => Some("g")
    case 'д' => Some("d") case 'е' => Some("e") case 'ё' => Some("jo") case 'ж' => Some("zh")
    case 'з' => Some("z") case 'и' => Some("i") case 'й' => Some("j") case 'к' => Some("k")
    case 'л' => Some("l") case 'м' => Some("m") case 'н' => Some("n") case 'о' => Some("o")
    case 'п' => Some("p") case 'р' => Some("r") case 'с' => Some("s") case 'т' => Some("t")
    case 'у' => Some("u") case 'ф' => Some("f") case 'х' => Some("h") case 'ц' => Some("c")
    case 'ч' => Some("ch") case 'ш' => Some("sh") case 'щ' => Some("shh") case 'ъ' => Some("")
    case 'ы' => Some("y") case 'ь' => Some("") case 'э' => Some("je") case 'ю' => Some("ju")
    case 'я' => Some("ja") case 'і' => Some("i") case 'ў' => Some("u")
    case _ => None
  }

  /** One character of `_translit`, after lower-casing: its table entry, `_` for a space, the
      character itself when it is alphanumeric, nothing otherwise. */
  function TranslitChar(c: char): (r: string)
    ensures forall k | 0 <= k < |r| :: IsWordChar(r[k]) && !('A' <= r[k] <= 'Z')
  {
    var l := LowerChar(c);
    match Latin(l)
    case Some(t) => t
    case None =>
      if l == ' ' then "_" else if IsAlnum(l) then [l] else ""
  }

  /** `_translit`. Lower-casing works character by character here, so lowering the whole title
      first is the same as lowering each character. The result holds only word characters and
      no upper-case ASCII, so it is usable as a file name. */
  function Translit(s: string): (r: string)
    ensures forall k | 0 <= k < |r| :: IsWordChar(r[k]) && !('A' <= r[k] <= 'Z')
  {
    if |s| == 0 then "" else TranslitChar(s[0]) + Translit(s[1..])
  }

  /** Transliteration works piece by piece. */
  lemma {:induction false} TranslitAppend(a: string, b: string)
    ensures Translit(a + b) == Translit(a) + Translit(b)
  {
    if |a| == 0 {
      assert a + b == b;
    } else {
      assert (a + b)[0] == a[0];
      assert (a + b)[1..] == a[1..] + b;
      TranslitAppend(a[1..], b);
    }
  }

  lemma LowerCharIdempotent(c: char)
    ensures LowerChar(LowerChar(c)) == LowerChar(c)
  {
  }

  /** Case does not matter: a title and its lower-cased form give the same name. */
  lemma {:induction false} TranslitIgnoresCase(s: string)
    ensures Translit(Lower(s)) == Translit(s)
  {
    if |s| > 0 {
      LowerCharIdempotent(s[0]);
      assert Lower(s)[1..] == Lower(s[1..]);
      TranslitIgnoresCase(s[1..]);
    }
  }

  /** The characters a Belarusian or Russian title is written in: table letters of either case,
      ASCII letters and digits, and spaces. */
  predicate TitleChar(c: char) {
    Latin(LowerChar(c)).Some? || c == ' ' || IsDigit(c) || 'a' <= c <= 'z' || 'A' <= c <= 'Z'
  }

  /** Lower-case ASCII letters, digits and underscores only. */
  predicate AsciiName(s: string) {
    forall k | 0 <= k < |s| :: 'a' <= s[k] <= 'z' || IsDigit(s[k]) || s[k] == '_'
  }

  lemma AsciiNameAppend(a: string, b: string)
    requires AsciiName(a) && AsciiName(b)
    ensures AsciiName(a + b)
  {
    assert forall k | |a| <= k < |a + b| :: (a + b)[k] == b[k - |a|];
  }

  /** A title written in those characters gives a plain ASCII name. */
  lemma {:induction false} TranslitAscii(s: string)
    requires forall k | 0 <= k < |s| :: TitleChar(s[k])
    ensures AsciiName(Translit(s))
  {
    if |s| > 0 {
      TranslitAscii(s[1..]);
      assert AsciiName(TranslitChar(s[0]));
      AsciiNameAppend(TranslitChar(s[0]), Translit(s[1..]));
    }
  }

  /** Spaces become underscores, one for one. */
  lemma SpaceToUnderscore()
    ensures Translit(" ") == "_"
  {
  }

  /** Capitals are lowered before the table is applied: "Мая" gives "maja". */
  lemma TranslitExample()
    ensures Translit("Мая") == "maja"
  {
    assert TranslitChar('М') == "m";
    assert TranslitChar('а') == "a";
    assert TranslitChar('я') == "ja";
    assert Translit("Мая") == TranslitChar('М') + (TranslitChar('а') + (TranslitChar('я') + ""));
  }


  // ----- adding or syncing a book -----

  function BookIds(books: seq<Book>): (r: seq<int>)
    ensures |r| == |books| && forall k | 0 <= k < |books| :: r[k] == books[k].id
  {
    seq(|books|, k requires 0 <= k < |books| => books[k].id)
  }

  predicate UniqueBookIds(books: seq<Book>) {
    forall i, j | 0 <= i < j < |books| :: books[i].id != books[j].id
  }

  /** The index of the first book whose title matches, ignoring case. */
  function FindBook(books: seq<Book>, title: string): (r: Option<nat>)
    ensures r.Some? ==> r.value < |books| && Lower(books[r.value].title) == Lower(title)
    ensures r.Some? ==> forall j | 0 <= j < r.value :: Lower(books[j].title) != Lower(title)
    ensures r.None? ==> forall j | 0 <= j < |books| :: Lower(books[j].title) != Lower(title)
  {
    if |books| == 0 then None
    else if Lower(books[0].title) == Lower(title) then Some(0)
    else
      var r := FindBook(books[1..], title);
      if r.None? then None else Some(r.value + 1)
  }

  /** The first index holding a matching title is what `FindBook` finds. */
  lemma {:induction false} FindBookAt(books: seq<Book>, title: string, k: nat)
    requires k < |books| && Lower(books[k].title) == Lower(title)
    requires forall j | 0 <= j < k :: Lower(books[j].title) != Lower(title)
    ensures FindBook(books, title) == Some(k)
  {
    if k > 0 {
      FindBookAt(books[1..], title, k - 1);
    }
  }

  /** The index of the first link with a null url. */
  function FirstNullUrl(links: seq<Link>): (r: Option<nat>)
    ensures r.Some? ==> r.value < |links| && links[r.value].url.None?
    ensures r.Some? ==> forall j | 0 <= j < r.value :: links[j].url.Some?
    ensures r.None? <==> forall k | 0 <= k < |links| :: links[k].url.Some?
  {
    if |links| == 0 then None
    else if links[0].url.None? then Some(0)
    else
      var r := FirstNullUrl(links[1..]);
      assert forall k | 1 <= k < |links| :: links[k] == links[1..][k - 1];
      if r.None? then None else Some(r.value + 1)
  }

  /** What `add_or_sync_book` returns: the updated data, or the ValueError for a null url together
      with the data as the call left it (the book and its credits are already in place by
      then). */
  datatype Outcome = Synced(data: BooksData) | NullUrl(data: BooksData, kind: string)

  /** The book list with the book in place: the existing one, or a new book with the next free
      id, no credits or links, and the cover downloaded under the transliterated title. Image
      download and resizing are the `download` parameter. */
  function Placed(books: seq<Book>, title: string, description: string, coverUrl: string,
                  download: (string, string) -> string): (r: seq<Book>)
    ensures FindBook(books, title).Some? ==> r == books
    ensures FindBook(books, title).None? ==> |r| == |books| + 1 && r[..|books|] == books
  {
    if FindBook(books, title).Some? then books
    else books + [Book(MaxId(BookIds(books)) + 1, title, description, [], [], [], [],
                       download(coverUrl, Translit(title)))]
  }

  /** Where the book sits in the list. */
  function Target(books: seq<Book>, title: string): (i: nat)
    ensures i <= |books|
  {
    if FindBook(books, title).Some? then FindBook(books, title).value else |books|
  }

  /** The people list after crediting authors, narrators and translators, in that order, and
      the three id lists. */
  datatype Credits = Credits(people: seq<Person>, authors: seq<int>, narrators: seq<int>, translators: seq<int>)

  function Credit(people: seq<Person>, authors: seq<string>, narrators: seq<string>,
                  translators: seq<string>): (c: Credits)
    ensures |c.authors| == |authors| && |c.narrators| == |narrators| && |c.translators| == |translators|
  {
    var (p1, a) := ToListOfIds(people, authors);
    var (p2, n) := ToListOfIds(p1, narrators);
    var (p3, t) := ToListOfIds(p2, translators);
    Credits(p3, a, n, t)
  }

  /** The arguments of one `add_or_sync_book` call after the data object. */
  datatype Request = Request(title: string, description: string, authors: seq<string>,
                             narrators: seq<string>, translators: seq<string>, links: seq<Link>,
                             coverUrl: string)

  /** `add_or_sync_book`: place the book, credit its people, reject a null link url, then
      overwrite a non-empty description and merge the links. */
  function AddOrSyncBook(data: BooksData, q: Request, download: (string, string) -> string): (r: Outcome)
    ensures r.data.linkTypes == data.linkTypes
    ensures r.NullUrl? <==> exists k | 0 <= k < |q.links| :: q.links[k].url.None?
  {
    var books := Placed(data.books, q.title, q.description, q.coverUrl, download);
    var i := Target(data.books, q.title);
    var c := Credit(data.people, q.authors, q.narrators, q.translators);
    var credited := books[i].(authors := c.authors, narrators := c.narrators, translators := c.translators);
    match FirstNullUrl(q.links)
    case Some(k) => NullUrl(BooksData(c.people, books[i := credited], data.linkTypes), q.links[k].kind)
    case None =>
      var synced := credited.(description := if q.description != "" then q.description else credited.description,
                              links := MergeLinks(credited.links, q.links));
      Synced(BooksData(c.people, books[i := synced], data.linkTypes))
  }

  /** The book is the first one whose title matches ignoring case, kept with its id, title and
      cover; or, when none matches, a new book at the end with the title, an id above every
      existing id and the cover downloaded under the transliterated title. No other book
      changes. */
  lemma SyncPlacesBook(data: BooksData, q: Request, download: (string, string) -> string)
    ensures var r, i := AddOrSyncBook(data, q, download), Target(data.books, q.title);
      && i < |r.data.books|
      && (forall j | 0 <= j < |data.books| && j != i :: r.data.books[j] == data.books[j])
      && (FindBook(data.books, q.title).Some? ==>
            && |r.data.books| == |data.books|
            && Lower(data.books[i].title) == Lower(q.title)
            && r.data.books[i].id == data.books[i].id
            && r.data.books[i].title == data.books[i].title
            && r.data.books[i].coverImage == data.books[i].coverImage)
      && (FindBook(data.books, q.title).None? ==>
            && |r.data.books| == |data.books| + 1
            && i == |data.books|
            && r.data.books[i].title == q.title
            && r.data.books[i].coverImage == download(q.coverUrl, Translit(q.title))
            && forall j | 0 <= j < |data.books| :: data.books[j].id < r.data.books[i].id)
  {
    var books := Placed(data.books, q.title, q.description, q.coverUrl, download);
    assert forall j | 0 <= j < |data.books| :: data.books[j].id == BookIds(data.books)[j];
  }

  /** Ids stay unique. */
  lemma SyncUniqueBookIds(data: BooksData, q: Request, download: (string, string) -> string)
    requires UniqueBookIds(data.books)
    ensures UniqueBookIds(AddOrSyncBook(data, q, download).data.books)
  {
    SyncPlacesBook(data, q, download);
  }

  lemma Extends(a: seq<Person>, b: seq<Person>)
    requires |a| <= |b| && b[..|a|] == a
    ensures b == a + b[|a|..]
  {
    assert b == b[..|a|] + b[|a|..];
  }

  lemma ExtendsTrans(a: seq<Person>, b: seq<Person>, c: seq<Person>)
    requires |a| <= |b| && b[..|a|] == a
    requires |b| <= |c| && c[..|b|] == b
    ensures c[..|a|] == a
  {
    assert c[..|a|] == c[..|b|][..|a|];
  }

  /** Credited names resolve, in all three lists, to the ids recorded for them. */
  lemma CreditResolves(people: seq<Person>, authors: seq<string>, narrators: seq<string>,
                       translators: seq<string>)
    ensures var c := Credit(people, authors, narrators, translators);
      && (forall k | 0 <= k < |authors| :: Resolves(c.people, authors[k], c.authors[k]))
      && (forall k | 0 <= k < |narrators| :: Resolves(c.people, narrators[k], c.narrators[k]))
      && (forall k | 0 <= k < |translators| :: Resolves(c.people, translators[k], c.translators[k]))
  {
    var (p1, a) := ToListOfIds(people, authors);
    var (p2, n) := ToListOfIds(p1, narrators);
    var p3 := ToListOfIds(p2, translators).0;
    ExtendsTrans(p1, p2, p3);
    ResolvesIn(people, authors, p3);
    ResolvesIn(p1, narrators, p3);
    ResolvesIn(p2, translators, p3);
  }

  /** Crediting only appends people, and unique ids and unique names stay unique. */
  lemma CreditPeople(people: seq<Person>, authors: seq<string>, narrators: seq<string>,
                     translators: seq<string>)
    ensures var c := Credit(people, authors, narrators, translators);
      && |people| <= |c.people| && c.people[..|people|] == people
      && (UniqueIds(people) ==> UniqueIds(c.people))
      && (UniqueNames(people) ==> UniqueNames(c.people))
  {
    var p1 := ToListOfIds(people, authors).0;
    var p2 := ToListOfIds(p1, narrators).0;
    var p3 := ToListOfIds(p2, translators).0;
    ExtendsTrans(people, p1, p2);
    ExtendsTrans(people, p2, p3);
    ToListOfIdsUnique(people, authors);
    ToListOfIdsUnique(p1, narrators);
    ToListOfIdsUnique(p2, translators);
  }

  /** The ids of a conversion still resolve in any list that extends its result. */
  lemma ResolvesIn(people: seq<Person>, names: seq<string>, later: seq<Person>)
    requires var after := ToListOfIds(people, names).0; |after| <= |later| && later[..|after|] == after
    ensures forall k | 0 <= k < |names| :: Resolves(later, names[k], ToListOfIds(people, names).1[k])
  {
    var (after, ids) := ToListOfIds(people, names);
    Extends(after, later);
    forall k | 0 <= k < |names| ensures Resolves(later, names[k], ids[k]) {
      ToListOfIdsResolves(people, names, k);
      ResolvesPrefix(after, later[|after|..], names[k], ids[k]);
    }
  }

  /** The credits of the synced book name its people, whether or not a null url is raised
      afterwards. */
  lemma SyncCredits(data: BooksData, q: Request, download: (string, string) -> string)
    ensures var r, i := AddOrSyncBook(data, q, download), Target(data.books, q.title);
      i < |r.data.books| &&
      var b := r.data.books[i];
      && |b.authors| == |q.authors| && |b.narrators| == |q.narrators| && |b.translators| == |q.translators|
      && (forall k | 0 <= k < |q.authors| :: Resolves(r.data.people, q.authors[k], b.authors[k]))
      && (forall k | 0 <= k < |q.narrators| :: Resolves(r.data.people, q.narrators[k], b.narrators[k]))
      && (forall k | 0 <= k < |q.translators| :: Resolves(r.data.people, q.translators[k], b.translators[k]))
      && |data.people| <= |r.data.people| && r.data.people[..|data.people|] == data.people
      && (UniqueIds(data.people) ==> UniqueIds(r.data.people))
      && (UniqueNames(data.people) ==> UniqueNames(r.data.people))
  {
    CreditResolves(data.people, q.authors, q.narrators, q.translators);
    CreditPeople(data.people, q.authors, q.narrators, q.translators);
  }

  /** On success the description is overwritten only by a non-empty one and the links are merged
      into those the book had (none for a new book). */
  lemma SyncContent(data: BooksData, q: Request, download: (string, string) -> string)
    requires AddOrSyncBook(data, q, download).Synced?
    ensures var r, i := AddOrSyncBook(data, q, download), Target(data.books, q.title);
      var (description, links) := if i < |data.books| then (data.books[i].description, data.books[i].links)
                                  else (q.description, []);
      && i < |r.data.books|
      && r.data.books[i].description == (if q.description != "" then q.description else description)
      && r.data.books[i].links == MergeLinks(links, q.links)
  {
  }

  /** On a null url the description and links are left as they were, and the error names the
      type of the first link with a null url. */
  lemma SyncNullUrl(data: BooksData, q: Request, download: (string, string) -> string)
    requires AddOrSyncBook(data, q, download).NullUrl?
    ensures var r, i := AddOrSyncBook(data, q, download), Target(data.books, q.title);
      var (description, links) := if i < |data.books| then (data.books[i].description, data.books[i].links)
                                  else (q.description, []);
      && i < |r.data.books|
      && r.data.books[i].description == description && r.data.books[i].links == links
      && exists k | 0 <= k < |q.links| :: q.links[k].url.None? && q.links[k].kind == r.kind
           && forall j | 0 <= j < k :: q.links[j].url.Some?
  {
  }

  /** Names that already resolve to these ids convert to them again and add nobody. */
  lemma ResolvedStable(people: seq<Person>, names: seq<string>, ids: seq<int>)
    requires |ids| == |names|
    requires forall k | 0 <= k < |names| :: Resolves(people, names[k], ids[k])
    ensures ToListOfIds(people, names) == (people, ids)
  {
    forall k | 0 <= k < |names| ensures names[k] in Names(people) {
      assert Names(people)[FirstNamed(people, names[k]).value] == names[k];
    }
    ListedAddsNobody(people, names);
    var again := ToListOfIds(people, names).1;
    forall k | 0 <= k < |names| ensures again[k] == ids[k] {
      ToListOfIdsResolves(people, names, k);
      ResolvesOnce(people, names[k], again[k], ids[k]);
    }
    assert again == ids;
  }

  /** Crediting the same names again changes nothing. */
  lemma CreditStable(people: seq<Person>, authors: seq<string>, narrators: seq<string>,
                     translators: seq<string>)
    ensures var c := Credit(people, authors, narrators, translators);
      Credit(c.people, authors, narrators, translators) == c
  {
    var c := Credit(people, authors, narrators, translators);
    CreditResolves(people, authors, narrators, translators);
    ResolvedStable(c.people, authors, c.authors);
    ResolvedStable(c.people, narrators, c.narrators);
    ResolvedStable(c.people, translators, c.translators);
  }

  /** After a successful sync the book is found again at the same place. */
  lemma SyncFindsAgain(data: BooksData, q: Request, download: (string, string) -> string)
    ensures var r, i := AddOrSyncBook(data, q, download), Target(data.books, q.title);
      i < |r.data.books| && FindBook(r.data.books, q.title) == Some(i)
  {
    var r, i := AddOrSyncBook(data, q, download), Target(data.books, q.title);
    SyncPlacesBook(data, q, download);
    FindBookAt(r.data.books, q.title, i);
  }

  /** A book already found at its place, with its credits resolving, its description and its
      links as the request would leave them, and no null url: syncing changes nothing. */
  lemma SyncSettled(data: BooksData, q: Request, download: (string, string) -> string, i: nat)
    requires FindBook(data.books, q.title) == Some(i)
    requires var b, c := data.books[i], Credit(data.people, q.authors, q.narrators, q.translators);
      c == Credits(data.people, b.authors, b.narrators, b.translators)
    requires forall k | 0 <= k < |q.links| :: q.links[k].url.Some?
    requires q.description == "" || data.books[i].description == q.description
    requires MergeLinks(data.books[i].links, q.links) == data.books[i].links
    ensures AddOrSyncBook(data, q, download) == Synced(data)
  {
    var b := data.books[i];
    assert Placed(data.books, q.title, q.description, q.coverUrl, download) == data.books;
    assert Target(data.books, q.title) == i;
    var synced := b.(description := if q.description != "" then q.description else b.description,
                     links := MergeLinks(b.links, q.links));
    assert synced == b;
    assert data.books[i := synced] == data.books;
  }

  /** Syncing the same book twice is the same as syncing it once. */
  lemma SyncIdempotent(data: BooksData, q: Request, download: (string, string) -> string)
    requires AddOrSyncBook(data, q, download).Synced?
    ensures var d := AddOrSyncBook(data, q, download).data;
      AddOrSyncBook(d, q, download) == Synced(d)
  {
    var d := AddOrSyncBook(data, q, download).data;
    var i := Target(data.books, q.title);
    SyncFindsAgain(data, q, download);
    var c := Credit(data.people, q.authors, q.narrators, q.translators);
    CreditStable(data.people, q.authors, q.narrators, q.translators);
    SyncContent(data, q, download);
    var links := if i < |data.books| then data.books[i].links else [];
    MergeLinksIdempotent(links, q.links);
    SyncSettled(d, q, download, i);
  }
}
