/**
 * The records of model.py (Device, Publication), the database that holds them,
 * the uid slug generation of `Publication.generateUid` and the `__unicode__` texts.
 */
module Model {
  import opened StringOps

  datatype Option<T> = None | Some(value: T)

  /** SIMPLE_CHARS: the characters a publication title keeps in its uid, as its three runs. */
  const SimpleChars: string := "0123456789" + "abcdefghijklmnopqrstuvwxyz" + "ABCDEFGHIJKLMNOPQRSTUVWXYZ"

  predicate IsAsciiAlnum(c: char) {
    '0' <= c <= '9' || 'a' <= c <= 'z' || 'A' <= c <= 'Z'
  }

  /** The characters a generated uid is made of: ASCII digits and lower-case letters. */
  predicate IsUidChar(c: char) {
    '0' <= c <= '9' || 'a' <= c <= 'z'
  }

  /** `c in SIMPLE_CHARS` */
  predicate InSimpleChars(c: char) {
    c in SimpleChars
  }

  /** SIMPLE_CHARS holds exactly the ASCII letters and digits. */
  lemma SimpleCharsAreAsciiAlnum(c: char)
    ensures InSimpleChars(c) <==> IsAsciiAlnum(c)
  {
    assert "0123456789" == CharRange('0', 10);
    assert "abcdefghijklmnopqrstuvwxyz" == CharRange('a', 26);
    assert "ABCDEFGHIJKLMNOPQRSTUVWXYZ" == CharRange('A', 26);
    InCharRange('0', 10, c);
    InCharRange('a', 26, c);
    InCharRange('A', 26, c);
  }

  /** The device statuses the application ever writes. */
  predicate IsStatus(s: string) {
    s == "new" || s == "green" || s == "yellow" || s == "red"
  }

  /** A row of the Device table. */
  datatype Device = Device(uid: string, email: string, name: string, status: string)

  /** A row of the Publication table; `uid` is None until `generateUid` assigns it. */
  datatype Publication = Publication(
    uid: Option<string>,
    title: string,
    shortDescription: string,
    previewUrl: string,
    pdfUrl: string,
    releaseDate: string,
    filesize: string,
    category: string)

  /** `Device.__unicode__`: the uid, then the name in parentheses. */
  function DeviceText(d: Device): (r: string)
    ensures |r| == |d.uid| + |d.name| + 2
    ensures r[..|d.uid|] == d.uid && r[|d.uid|] == '(' && r[|r| - 1] == ')'
    ensures r[|d.uid| + 1..|r| - 1] == d.name
  {
    d.uid + "(" + d.name + ")"
  }

  /** Two devices with the same uid print alike exactly when their names agree. */
  lemma DeviceTextDeterminesName(a: Device, b: Device)
    requires a.uid == b.uid
    ensures DeviceText(a) == DeviceText(b) <==> a.name == b.name
  {
  }

  /**
   * `Publication.__unicode__`. Concatenating the None of an unassigned uid raises in
   * Python, which is the None result here.
   */
  function PublicationText(p: Publication): (r: Option<string>)
    ensures r.Some? <==> p.uid.Some?
    ensures r.Some? ==> var u, s := p.uid.value, r.value;
      |s| == 13 + |u| + |p.title| + 2 &&
      s[..13] == "Publication: " && s[13..13 + |u|] == u && s[13 + |u|] == '(' &&
      s[14 + |u|..|s| - 1] == p.title && s[|s| - 1] == ')'
  {
    match p.uid
    case None => None
    case Some(u) => Some("Publication: " + u + "(" + p.title + ")")
  }

  /** The comprehension `[c for c in title if c in SIMPLE_CHARS]`, joined. */
  function KeepSimple(t: string): (r: string)
    ensures forall i :: 0 <= i < |r| ==> IsAsciiAlnum(r[i])
    ensures |r| <= |t|
  {
    if t == [] then []
    else
      SimpleCharsAreAsciiAlnum(t[0]);
      (if InSimpleChars(t[0]) then [t[0]] else []) + KeepSimple(t[1..])
  }

  /** One step of the filter: the first character is kept exactly when it is an ASCII letter or digit. */
  lemma KeepSimpleCons(c: char, rest: string)
    ensures KeepSimple([c] + rest) == (if IsAsciiAlnum(c) then [c] else []) + KeepSimple(rest)
  {
    SimpleCharsAreAsciiAlnum(c);
    assert ([c] + rest)[1..] == rest;
  }

  /** Every ASCII letter and digit is kept as often as the title has it; all others are dropped. */
  lemma {:induction false} KeepSimpleCounts(t: string)
    ensures forall c :: IsAsciiAlnum(c) ==> multiset(KeepSimple(t))[c] == multiset(t)[c]
    ensures forall c :: !IsAsciiAlnum(c) ==> multiset(KeepSimple(t))[c] == 0
  {
    if t != [] {
      KeepSimpleCons(t[0], t[1..]);
      KeepSimpleCounts(t[1..]);
      assert t == [t[0]] + t[1..];
      assert multiset(t) == multiset([t[0]]) + multiset(t[1..]);
    }
  }

  /** The filter works character by character, so it distributes over concatenation. */
  lemma {:induction false} KeepSimpleAppend(a: string, b: string)
    ensures KeepSimple(a + b) == KeepSimple(a) + KeepSimple(b)
  {
    if a != [] {
      var head := if IsAsciiAlnum(a[0]) then [a[0]] else [];
      assert a + b == [a[0]] + (a[1..] + b);
      KeepSimpleCons(a[0], a[1..] + b);
      KeepSimpleAppend(a[1..], b);
      assert a == [a[0]] + a[1..];
      KeepSimpleCons(a[0], a[1..]);
      assert head + (KeepSimple(a[1..]) + KeepSimple(b)) == (head + KeepSimple(a[1..])) + KeepSimple(b);
    } else {
      assert a + b == b;
    }
  }

  /** A title made only of ASCII letters and digits is kept whole. */
  lemma {:induction false} KeepSimpleOfSimple(t: string)
    requires forall i :: 0 <= i < |t| ==> IsAsciiAlnum(t[i])
    ensures KeepSimple(t) == t
  {
    if t != [] {
      KeepSimpleOfSimple(t[1..]);
      assert t == [t[0]] + t[1..];
      KeepSimpleCons(t[0], t[1..]);
    }
  }

  lemma LowerAppend(a: string, b: string)
    ensures Lower(a + b) == Lower(a) + Lower(b)
  {
  }

  /** Lower-casing first does not change which characters the filter keeps. */
  lemma {:induction false} KeepSimpleOfLower(t: string)
    ensures KeepSimple(Lower(t)) == Lower(KeepSimple(t))
  {
    if t != [] {
      var lt := Lower(t);
      var head := if IsAsciiAlnum(t[0]) then [t[0]] else [];
      var lowerHead := if IsAsciiAlnum(lt[0]) then [lt[0]] else [];
      assert lowerHead == Lower(head);
      assert lt == [lt[0]] + Lower(t[1..]);
      KeepSimpleCons(lt[0], Lower(t[1..]));
      KeepSimpleOfLower(t[1..]);
      assert t == [t[0]] + t[1..];
      KeepSimpleCons(t[0], t[1..]);
      LowerAppend(head, KeepSimple(t[1..]));
    }
  }

  /** The base of a publication uid: the title's SIMPLE_CHARS, lower-cased (model.py line 31). */
  function BaseSlug(title: string): (r: string)
    ensures forall i :: 0 <= i < |r| ==> IsUidChar(r[i])
    ensures |r| <= |title|
  {
    Lower(KeepSimple(title))
  }

  /** Titles that differ only in the case of ASCII letters share their base slug. */
  lemma BaseSlugIgnoresCase(t: string)
    ensures BaseSlug(Lower(t)) == BaseSlug(t)
  {
    KeepSimpleOfLower(t);
    var k := KeepSimple(t);
    assert Lower(Lower(k)) == Lower(k);
  }

  /** A base slug is its own base slug. */
  lemma BaseSlugIdempotent(t: string)
    ensures BaseSlug(BaseSlug(t)) == BaseSlug(t)
  {
    var b := BaseSlug(t);
    KeepSimpleOfSimple(b);
    assert Lower(b) == b;
  }

  /** The filter applied to one more character: it appends the character exactly when it is kept. */
  lemma KeepSimpleSnoc(t: string, i: nat)
    requires i < |t|
    ensures KeepSimple(t[..i + 1]) == KeepSimple(t[..i]) + (if IsAsciiAlnum(t[i]) then [t[i]] else [])
  {
    assert t[..i + 1] == t[..i] + [t[i]];
    KeepSimpleAppend(t[..i], [t[i]]);
    KeepSimpleCons(t[i], []);
    assert [t[i]] + [] == [t[i]];
  }

  /** The title "Caf\u00e9 D\u00e9j\u00e0 Vu!", character by character. */
  ghost predicate IsCafeDejaVu(t: string) {
    |t| == 13 &&
    t[0] == 'C' && t[1] == 'a' && t[2] == 'f' && t[3] == '\U{e9}' && t[4] == ' ' && t[5] == 'D' && t[6] == '\U{e9}' &&
    t[7] == 'j' && t[8] == '\U{e0}' && t[9] == ' ' && t[10] == 'V' && t[11] == 'u' && t[12] == '!'
  }

  lemma CafeDejaVuSpelled(t: string)
    requires t == "Caf\U{e9} D\U{e9}j\U{e0} Vu!"
    ensures IsCafeDejaVu(t)
  {
  }

  /** The filter keeps C, a, f, D, j, V and u, and drops the accented letters, the spaces and '!'. */
  lemma KeepSimpleOfCafeDejaVu(t: string)
    requires IsCafeDejaVu(t)
    ensures KeepSimple(t) == "CafDjVu"
  {
    assert t[..0] == [];
    KeepSimpleSnoc(t, 0);
    assert KeepSimple(t[..1]) == "C";
    KeepSimpleSnoc(t, 1);
    assert KeepSimple(t[..2]) == "Ca";
    KeepSimpleSnoc(t, 2);
    assert KeepSimple(t[..3]) == "Caf";
    KeepSimpleSnoc(t, 3);
    assert KeepSimple(t[..4]) == "Caf";
    KeepSimpleSnoc(t, 4);
    assert KeepSimple(t[..5]) == "Caf";
    KeepSimpleSnoc(t, 5);
    assert KeepSimple(t[..6]) == "CafD";
    KeepSimpleSnoc(t, 6);
    assert KeepSimple(t[..7]) == "CafD";
    KeepSimpleSnoc(t, 7);
    assert KeepSimple(t[..8]) == "CafDj";
    KeepSimpleSnoc(t, 8);
    assert KeepSimple(t[..9]) == "CafDj";
    KeepSimpleSnoc(t, 9);
    assert KeepSimple(t[..10]) == "CafDj";
    KeepSimpleSnoc(t, 10);
    assert KeepSimple(t[..11]) == "CafDjV";
    KeepSimpleSnoc(t, 11);
    assert KeepSimple(t[..12]) == "CafDjVu";
    KeepSimpleSnoc(t, 12);
    assert KeepSimple(t[..13]) == "CafDjVu";
    assert t[..13] == t;
  }

  /** The base of the title "Caf\u00e9 D\u00e9j\u00e0 Vu!" is "cafdjvu". */
  lemma BaseSlugOfCafeDejaVu(title: string)
    requires title == "Caf\U{e9} D\U{e9}j\U{e0} Vu!"
    ensures BaseSlug(title) == "cafdjvu"
  {
    CafeDejaVuSpelled(title);
    KeepSimpleOfCafeDejaVu(title);
    assert Lower("CafDjVu") == "cafdjvu";
  }

  /** The uids `base + str(k)` for every k < n. */
  ghost function Tried(base: string, n: nat): set<string>
  {
    set k | 0 <= k < n :: base + NatToString(k)
  }

  lemma TriedGrows(base: string, n: nat)
    ensures base + NatToString(n) !in Tried(base, n)
    ensures Tried(base, n + 1) == Tried(base, n) + {base + NatToString(n)}
  {
    forall k | 0 <= k < n ensures base + NatToString(k) != base + NatToString(n) {
      SuffixedInjective(base, k, n);
    }
  }

  /** `n` is the smallest suffix for which `base + str(n)` is not among `inUse`. */
  ghost predicate IsFirstFreeSuffix(inUse: set<string>, base: string, n: nat) {
    base + NatToString(n) !in inUse && forall k :: 0 <= k < n ==> base + NatToString(k) in inUse
  }

  /** At most one suffix is the first free one. */
  lemma FirstFreeSuffixUnique(inUse: set<string>, base: string, n: nat, m: nat)
    requires IsFirstFreeSuffix(inUse, base, n) && IsFirstFreeSuffix(inUse, base, m)
    ensures n == m
  {
  }

  /**
   * Storing the uid generated for a title and then generating again for the same title
   * gives a strictly larger suffix, hence a different uid.
   */
  lemma NextSuffixIsLarger(inUse: set<string>, base: string, n: nat, m: nat)
    requires IsFirstFreeSuffix(inUse, base, n)
    requires IsFirstFreeSuffix(inUse + {base + NatToString(n)}, base, m)
    ensures n < m
  {
  }

  /**
   * Two publications with the same title, added to an empty table: the first gets suffix 0,
   * and once it is stored the second gets suffix 1.
   */
  lemma SameTitleGetsNextSuffix(title: string)
    ensures var base := BaseSlug(title);
      IsFirstFreeSuffix({}, base, 0) && IsFirstFreeSuffix({base + NatToString(0)}, base, 1)
  {
    SuffixedInjective(BaseSlug(title), 0, 1);
  }

  /** For the title "Caf\u00e9 D\u00e9j\u00e0 Vu!" those two uids are "cafdjvu0" and "cafdjvu1". */
  lemma CafeDejaVuGetsSuffixesZeroAndOne(title: string)
    requires title == "Caf\U{e9} D\U{e9}j\U{e0} Vu!"
    ensures BaseSlug(title) + NatToString(0) == "cafdjvu0"
    ensures BaseSlug(title) + NatToString(1) == "cafdjvu1"
    ensures IsFirstFreeSuffix({}, BaseSlug(title), 0)
    ensures IsFirstFreeSuffix({"cafdjvu0"}, BaseSlug(title), 1)
  {
    BaseSlugOfCafeDejaVu(title);
    SameTitleGetsNextSuffix(title);
    assert NatToString(0) == "0";
    assert NatToString(1) == "1";
  }

  /** Every stored device is filed under its own uid and has one of the four statuses. */
  predicate DevicesValid(devices: map<string, Device>) {
    forall u :: u in devices ==> devices[u].uid == u && IsStatus(devices[u].status)
  }

  /** Every stored publication is filed under its own, assigned uid. */
  predicate PublicationsValid(pubs: map<string, Publication>) {
    forall u :: u in pubs ==> pubs[u].uid == Some(u)
  }

  /** The database: the Device and Publication tables, keyed by their primary key `uid`. */
  class Store {
    var devices: map<string, Device>
    var pubs: map<string, Publication>

    ghost predicate Valid()
      reads this
    {
      DevicesValid(devices) && PublicationsValid(pubs)
    }

    constructor ()
      ensures Valid()
      ensures devices == map[] && pubs == map[]
    {
      devices := map[];
      pubs := map[];
    }
  }

  /**
   * `Publication.generateUid`: keeps an assigned uid; otherwise tries `base + str(num)` for
   * num = 0, 1, ... against the Publication table and takes the first one not in use.
   * Returns the uid and the publication with its uid set.
   */
  method GenerateUid(db: Store, pub: Publication) returns (uid: string, updated: Publication)
    ensures updated == pub.(uid := Some(uid))
    ensures pub.uid.Some? ==> uid == pub.uid.value
    ensures pub.uid.None? ==> uid !in db.pubs
    ensures pub.uid.None? ==> exists n: nat ::
      uid == BaseSlug(pub.title) + NatToString(n) && IsFirstFreeSuffix(db.pubs.Keys, BaseSlug(pub.title), n)
    ensures pub.uid.None? ==> forall i :: 0 <= i < |uid| ==> IsUidChar(uid[i])
  {
    if pub.uid.Some? {
      return pub.uid.value, pub;
    }
    var base := BaseSlug(pub.title);
    var num: nat := 0;
    while base + NatToString(num) in db.pubs
      invariant forall k :: 0 <= k < num ==> base + NatToString(k) in db.pubs
      decreases db.pubs.Keys - Tried(base, num)
    {
      TriedGrows(base, num);
      num := num + 1;
    }
    uid := base + NatToString(num);
    assert IsFirstFreeSuffix(db.pubs.Keys, base, num);
    updated := pub.(uid := Some(uid));
  }
}
