/**
 * The stateful request handlers of app.py with the web framework stripped away: each handler
 * is a method on the database (Model.Store), and each change it makes to a table is stated by
 * a function on the table's map. The feed's field filter and the upload name are functions.
 */
module App {
  import opened StringOps
  import opened Model

  /** app.config['UPLOAD_FOLDER'] */
  const UploadFolder: string := "uploads/"

  /** The three buttons of the device list that set a device's status. */
  datatype Tier = Green | Yellow | Red

  /** The status string each button writes. */
  function TierStatus(t: Tier): (s: string)
    ensures IsStatus(s) && s != "new"
    ensures t == Green <==> s == "green"
    ensures t == Yellow <==> s == "yellow"
    ensures t == Red <==> s == "red"
  {
    match t
    case Green => "green"
    case Yellow => "yellow"
    case Red => "red"
  }

  // ---------------------------------------------------------------------------------------
  // register (app.py lines 207-222)
  // ---------------------------------------------------------------------------------------

  /** The Device table after `register(uid, name, email)`. */
  function Registered(devices: map<string, Device>, uid: string, name: string, email: string): (r: map<string, Device>)
    ensures r.Keys == devices.Keys + {uid}
    ensures |r| == if uid in devices then |devices| else |devices| + 1
    ensures forall u :: u in devices && u != uid ==> r[u] == devices[u]
    ensures r[uid].name == name && r[uid].email == email
    ensures uid !in devices ==> r[uid].uid == uid && r[uid].status == "new"
    ensures uid in devices ==> r[uid].uid == devices[uid].uid && r[uid].status == devices[uid].status
    ensures DevicesValid(devices) ==> DevicesValid(r)
  {
    var device := if uid in devices then devices[uid] else Device(uid, "", "", "new");
    devices[uid := device.(name := name, email := email)]
  }

  /**
   * `register`: looks the uid up, creates the device with status "new" when it is unknown,
   * overwrites name and email, stores it and answers with its status.
   */
  method Register(db: Store, uid: string, name: string, email: string) returns (status: string)
    requires db.Valid()
    modifies db
    ensures db.Valid()
    ensures db.devices == Registered(old(db.devices), uid, name, email)
    ensures db.pubs == old(db.pubs)
    ensures uid in db.devices && status == db.devices[uid].status
  {
    var device: Device;
    if uid in db.devices {
      device := db.devices[uid];
    } else {
      device := Device(uid, "", "", "new");
    }
    device := device.(name := name);
    device := device.(email := email);
    db.devices := db.devices[uid := device];
    status := device.status;
  }

  /** Registering again with the same data changes nothing. */
  lemma RegisterIdempotent(devices: map<string, Device>, uid: string, name: string, email: string)
    ensures Registered(Registered(devices, uid, name, email), uid, name, email) == Registered(devices, uid, name, email)
  {
  }

  /** Registering a known device never resets the status an administrator gave it. */
  lemma ReRegisterKeepsTier(devices: map<string, Device>, uid: string, t: Tier, name: string, email: string)
    requires uid in devices
    ensures Registered(WithTier(devices, uid, t), uid, name, email)[uid].status == TierStatus(t)
  {
  }

  // ---------------------------------------------------------------------------------------
  // devices() POST: the green.x / yellow.x / red.x buttons (app.py lines 88-107)
  // ---------------------------------------------------------------------------------------

  /** The Device table after the button for `t` was pressed on the existing device `uid`. */
  function WithTier(devices: map<string, Device>, uid: string, t: Tier): (r: map<string, Device>)
    requires uid in devices
    ensures r.Keys == devices.Keys
    ensures forall u :: u in devices && u != uid ==> r[u] == devices[u]
    ensures r[uid].status == TierStatus(t)
    ensures r[uid].uid == devices[uid].uid && r[uid].name == devices[uid].name && r[uid].email == devices[uid].email
    ensures DevicesValid(devices) ==> DevicesValid(r)
  {
    devices[uid := devices[uid].(status := TierStatus(t))]
  }

  /**
   * One of the three status buttons. The handler dereferences the looked-up device without a
   * None check, so for an unknown uid it raises before changing anything: `found` is false.
   */
  method SetTier(db: Store, uid: string, t: Tier) returns (found: bool)
    requires db.Valid()
    modifies db
    ensures db.Valid()
    ensures found == (uid in old(db.devices))
    ensures found ==> db.devices == WithTier(old(db.devices), uid, t)
    ensures !found ==> db.devices == old(db.devices)
    ensures db.pubs == old(db.pubs)
  {
    found := uid in db.devices;
    if found {
      var dev := db.devices[uid];
      dev := dev.(status := TierStatus(t));
      db.devices := db.devices[uid := dev];
    }
  }

  // ---------------------------------------------------------------------------------------
  // devices() POST delete.x (app.py lines 83-87) and pubs() POST delete.x (lines 126-130)
  // ---------------------------------------------------------------------------------------

  /** A table after `query.filter_by(uid=uid).delete()`: the row is gone if it was there. */
  function Deleted<V>(table: map<string, V>, uid: string): (r: map<string, V>)
    ensures r.Keys == table.Keys - {uid}
    ensures |r| == if uid in table then |table| - 1 else |table|
    ensures forall u :: u in r ==> r[u] == table[u]
  {
    table - {uid}
  }

  /** Registering a device and deleting it again leaves the table as if it had been deleted. */
  lemma DeleteUndoesRegister(devices: map<string, Device>, uid: string, name: string, email: string)
    ensures Deleted(Registered(devices, uid, name, email), uid) == Deleted(devices, uid)
  {
    MapsEqual(Deleted(Registered(devices, uid, name, email), uid), Deleted(devices, uid));
  }

  method DeleteDevice(db: Store, uid: string)
    requires db.Valid()
    modifies db
    ensures db.Valid()
    ensures db.devices == Deleted(old(db.devices), uid)
    ensures db.pubs == old(db.pubs)
  {
    db.devices := db.devices - {uid};
  }

  method DeletePublication(db: Store, uid: string)
    requires db.Valid()
    modifies db
    ensures db.Valid()
    ensures db.pubs == Deleted(old(db.pubs), uid)
    ensures db.devices == old(db.devices)
  {
    db.pubs := db.pubs - {uid};
  }

  // ---------------------------------------------------------------------------------------
  // edit_pub POST (app.py lines 144-151)
  // ---------------------------------------------------------------------------------------

  /** The seven content fields the edit form submits. */
  datatype PublicationForm = PublicationForm(
    title: string,
    shortDescription: string,
    previewUrl: string,
    pdfUrl: string,
    releaseDate: string,
    filesize: string,
    category: string)

  /** The Publication table after the edit form for `uid` was saved. */
  function Edited(pubs: map<string, Publication>, uid: string, form: PublicationForm): (r: map<string, Publication>)
    requires uid in pubs
    ensures r.Keys == pubs.Keys
    ensures forall u :: u in pubs && u != uid ==> r[u] == pubs[u]
    ensures r[uid].uid == pubs[uid].uid
    ensures r[uid].title == form.title && r[uid].shortDescription == form.shortDescription
    ensures r[uid].previewUrl == form.previewUrl && r[uid].pdfUrl == form.pdfUrl
    ensures r[uid].releaseDate == form.releaseDate && r[uid].filesize == form.filesize
    ensures r[uid].category == form.category
    ensures PublicationsValid(pubs) ==> PublicationsValid(r)
  {
    pubs[uid := Publication(pubs[uid].uid, form.title, form.shortDescription, form.previewUrl,
                            form.pdfUrl, form.releaseDate, form.filesize, form.category)]
  }

  /** Saving the same form twice is the same as saving it once. */
  lemma EditIdempotent(pubs: map<string, Publication>, uid: string, form: PublicationForm)
    requires uid in pubs
    ensures Edited(Edited(pubs, uid, form), uid, form) == Edited(pubs, uid, form)
  {
  }

  /**
   * edit_pub POST: the row is found by the form's uid (not the URL's) and its seven content
   * fields are overwritten one by one; an unknown uid raises before any change.
   */
  method EditPublication(db: Store, uid: string, form: PublicationForm) returns (found: bool)
    requires db.Valid()
    modifies db
    ensures db.Valid()
    ensures found == (uid in old(db.pubs))
    ensures found ==> db.pubs == Edited(old(db.pubs), uid, form)
    ensures !found ==> db.pubs == old(db.pubs)
    ensures db.devices == old(db.devices)
  {
    found := uid in db.pubs;
    if found {
      var pub := db.pubs[uid];
      pub := pub.(title := form.title);
      pub := pub.(shortDescription := form.shortDescription);
      pub := pub.(previewUrl := form.previewUrl);
      pub := pub.(pdfUrl := form.pdfUrl);
      pub := pub.(releaseDate := form.releaseDate);
      pub := pub.(filesize := form.filesize);
      pub := pub.(category := form.category);
      db.pubs := db.pubs[uid := pub];
    }
  }

  // ---------------------------------------------------------------------------------------
  // new_pub POST (app.py lines 165-190)
  // ---------------------------------------------------------------------------------------

  /**
   * The stored name of an upload, `uid + "." + filename.split(".")[-1]`: the uid, a dot, and
   * the part of the upload's name after its last dot (all of it when it has no dot).
   */
  function UploadName(uid: string, filename: string): (r: string)
    ensures |uid| < |r| && r[..|uid|] == uid && r[|uid|] == '.'
    ensures var ext := r[|uid| + 1..];
      '.' !in ext && |ext| <= |filename| && filename[|filename| - |ext|..] == ext &&
      ('.' in filename ==> |ext| < |filename| && filename[|filename| - |ext| - 1] == '.') &&
      ('.' !in filename ==> ext == filename)
  {
    var r := uid + "." + LastSegment(filename);
    assert r[|uid| + 1..] == LastSegment(filename);
    r
  }

  /**
   * A dot-free uid, such as every generated one, keeps the stored name to exactly one dot:
   * splitting it gives back the uid and the upload's extension.
   */
  lemma UploadNameSplits(uid: string, filename: string)
    requires '.' !in uid
    ensures Split(UploadName(uid, filename), '.') == [uid, LastSegment(filename)]
    ensures LastSegment(UploadName(uid, filename)) == LastSegment(filename)
  {
    var n := UploadName(uid, filename);
    var ext := n[|uid| + 1..];
    assert n == uid + "." + ext;
    SplitOfDotted(uid, ext);
  }

  /** Characters a uid is made of include no dot. */
  lemma GeneratedUidHasNoDot(uid: string)
    requires forall i :: 0 <= i < |uid| ==> IsUidChar(uid[i])
    ensures '.' !in uid
  {
  }

  /**
   * new_pub POST: generates the uid from the title, names both uploads after it, points the
   * URLs at them and adds the publication. `staticUrl` stands for `url_for('static', ...)`,
   * `releaseDate` for the formatted clock and `filesize` for the formatted size of the saved PDF.
   */
  method NewPublication(db: Store, title: string, shortDescription: string, category: string,
                        releaseDate: string, pdfFilename: string, previewFilename: string,
                        filesize: string, staticUrl: string -> string) returns (uid: string)
    requires db.Valid()
    modifies db
    ensures db.Valid()
    ensures uid !in old(db.pubs)
    ensures exists n: nat ::
      uid == BaseSlug(title) + NatToString(n) && IsFirstFreeSuffix(old(db.pubs).Keys, BaseSlug(title), n)
    ensures '.' !in uid
    ensures db.pubs == old(db.pubs)[uid := Publication(Some(uid), title, shortDescription,
      staticUrl(UploadFolder + UploadName(uid, previewFilename)),
      staticUrl(UploadFolder + UploadName(uid, pdfFilename)),
      releaseDate, filesize, category)]
    ensures db.devices == old(db.devices)
  {
    var pub := Publication(None, title, "", "", "", "", "", "");
    uid, pub := GenerateUid(db, pub);
    GeneratedUidHasNoDot(uid);
    pub := pub.(shortDescription := shortDescription);
    pub := pub.(category := category);
    pub := pub.(releaseDate := releaseDate);
    var pdfName := UploadName(uid, pdfFilename);
    pub := pub.(pdfUrl := staticUrl(UploadFolder + pdfName));
    var previewName := UploadName(uid, previewFilename);
    pub := pub.(previewUrl := staticUrl(UploadFolder + previewName));
    pub := pub.(filesize := filesize);
    db.pubs := db.pubs[uid := pub];
  }

  // ---------------------------------------------------------------------------------------
  // feed (app.py lines 197-204)
  // ---------------------------------------------------------------------------------------

  /** A value in an object's attribute dictionary `vars(pub)`. */
  datatype AttrValue = Text(s: string) | Null | InstanceState

  /** The column attributes of a Publication. */
  const ColumnNames: set<string> :=
    {"uid", "title", "shortDescription", "previewUrl", "pdfUrl", "releaseDate", "filesize", "category"}

  /** The ORM's own attribute, the only one whose name starts with an underscore. */
  const InstanceStateName := "_sa_instance_state"

  lemma ColumnNamesArePublic()
    ensures forall k :: k in ColumnNames ==> |k| > 0 && k[0] != '_'
    ensures |InstanceStateName| > 0 && InstanceStateName[0] == '_'
  {
  }

  /** The value of column `k` of a Publication. */
  function ColumnValue(p: Publication, k: string): AttrValue
  {
    if k == "uid" then (match p.uid case Some(u) => Text(u) case None => Null)
    else if k == "title" then Text(p.title)
    else if k == "shortDescription" then Text(p.shortDescription)
    else if k == "previewUrl" then Text(p.previewUrl)
    else if k == "pdfUrl" then Text(p.pdfUrl)
    else if k == "releaseDate" then Text(p.releaseDate)
    else if k == "filesize" then Text(p.filesize)
    else Text(p.category)
  }

  /** The column part of `vars(pub)`: one entry per column of the Publication table. */
  function Columns(p: Publication): (a: map<string, AttrValue>)
    ensures a.Keys == ColumnNames
    ensures forall k :: k in a ==> a[k] == ColumnValue(p, k)
  {
    map k | k in ColumnNames :: ColumnValue(p, k)
  }

  /** `vars(pub)` of a loaded Publication: its columns and the ORM's `_sa_instance_state`. */
  function Attributes(p: Publication): (a: map<string, AttrValue>)
    ensures a.Keys == ColumnNames + {InstanceStateName}
    ensures forall k :: k in a ==> k != ""
  {
    ColumnNamesArePublic();
    Columns(p)[InstanceStateName := InstanceState]
  }

  /**
   * `{key: value for (key, value) in vars(pub).iteritems() if key[0] != "_"}`.
   * `key[0]` raises on an empty key, which attribute names never are.
   */
  function PublicFields(a: map<string, AttrValue>): (r: map<string, AttrValue>)
    requires forall k :: k in a ==> k != ""
    ensures forall k :: k in r ==> k in a && r[k] == a[k] && k[0] != '_'
    ensures forall k :: k in a && k[0] != '_' ==> k in r
  {
    map k | k in a && k[0] != '_' :: a[k]
  }

  /** Filtering twice is filtering once. */
  lemma PublicFieldsIdempotent(a: map<string, AttrValue>)
    requires forall k :: k in a ==> k != ""
    ensures PublicFields(PublicFields(a)) == PublicFields(a)
  {
  }

  /** A cleaned publication is exactly its eight columns: only the ORM state is dropped. */
  lemma PublicFieldsOfPublication(p: Publication)
    ensures PublicFields(Attributes(p)) == Columns(p)
  {
    var a, c := Attributes(p), Columns(p);
    var r := PublicFields(a);
    ColumnNamesArePublic();
    forall k ensures k in r <==> k in c {
      if k in c {
        assert k in a && k[0] != '_';
      }
    }
    forall k | k in r ensures r[k] == c[k] {
      assert k != InstanceStateName;
    }
    MapsEqual(r, c);
  }

  lemma MapsEqual<K, V>(m: map<K, V>, n: map<K, V>)
    requires forall k :: k in m <==> k in n
    requires forall k :: k in m ==> m[k] == n[k]
    ensures m == n
  {
  }

  /** The filter drops exactly the ORM state and nothing else. */
  lemma PublicFieldsDropsOnlyState(p: Publication)
    ensures PublicFields(Attributes(p)) == Attributes(p) - {InstanceStateName}
  {
    PublicFieldsOfPublication(p);
    ColumnNamesArePublic();
    RemoveAdded(Columns(p), InstanceStateName, InstanceState);
  }

  lemma RemoveAdded<K, V>(m: map<K, V>, k: K, v: V)
    requires k !in m
    ensures m[k := v] - {k} == m
  {
  }

  /** `order` lists every key of the table exactly once: the rows of `Publication.query.all()`. */
  ghost predicate IsRowOrder(order: seq<string>, keys: set<string>) {
    (forall u :: u in keys <==> u in order) &&
    (forall i, j :: 0 <= i < j < |order| ==> order[i] != order[j])
  }

  lemma {:induction false} RowOrderLength(order: seq<string>, keys: set<string>)
    requires IsRowOrder(order, keys)
    ensures |order| == |keys|
  {
    if order == [] {
      assert keys == {};
    } else {
      var n := |order| - 1;
      var last, prefix := order[n], order[..n];
      forall u ensures u in keys - {last} <==> u in prefix {
        if u in prefix {
          var i :| 0 <= i < n && prefix[i] == u;
          assert order[i] == u && order[i] != order[n];
        }
        if u in keys - {last} {
          assert u in order;
          var i :| 0 <= i < |order| && order[i] == u;
          assert i != n && prefix[i] == u;
        }
      }
      assert IsRowOrder(prefix, keys - {last});
      RowOrderLength(prefix, keys - {last});
    }
  }

  /** One cleaned entry of `feed`: the publication's columns, without the ORM state. */
  function FeedEntry(p: Publication): (e: map<string, AttrValue>)
    ensures e == PublicFields(Attributes(p)) == Columns(p)
    ensures forall k :: k in e ==> k != "" && k[0] != '_'
  {
    PublicFieldsOfPublication(p);
    ColumnNamesArePublic();
    PublicFields(Attributes(p))
  }

  /**
   * The publication list of `feed`: one cleaned entry per stored publication, in the
   * database's row order.
   */
  function Feed(pubs: map<string, Publication>, order: seq<string>): (entries: seq<map<string, AttrValue>>)
    requires IsRowOrder(order, pubs.Keys)
    ensures |entries| == |order| == |pubs|
    ensures forall i :: 0 <= i < |entries| ==> entries[i] == FeedEntry(pubs[order[i]])
    ensures forall i, k :: 0 <= i < |entries| && k in entries[i] ==> k != "" && k[0] != '_'
  {
    RowOrderLength(order, pubs.Keys);
    seq(|order|, i requires 0 <= i < |order| => FeedEntry(pubs[order[i]]))
  }

  /** Entry `i` of the feed carries the uid of row `i`. */
  lemma FeedEntryUid(pubs: map<string, Publication>, order: seq<string>, i: int)
    requires PublicationsValid(pubs) && IsRowOrder(order, pubs.Keys)
    requires 0 <= i < |order|
    ensures "uid" in Feed(pubs, order)[i] && Feed(pubs, order)[i]["uid"] == Text(order[i])
  {
    var p := pubs[order[i]];
    assert FeedEntry(p)["uid"] == ColumnValue(p, "uid");
  }

  /** The feed names every stored publication, each in exactly one entry, and nothing else. */
  lemma FeedListsEachPublicationOnce(pubs: map<string, Publication>, order: seq<string>)
    requires PublicationsValid(pubs) && IsRowOrder(order, pubs.Keys)
    ensures var entries := Feed(pubs, order);
      (forall i :: 0 <= i < |entries| ==> "uid" in entries[i]) &&
      (forall u :: u in pubs <==> exists i :: 0 <= i < |entries| && entries[i]["uid"] == Text(u)) &&
      (forall i, j :: 0 <= i < j < |entries| ==> entries[i]["uid"] != entries[j]["uid"])
  {
    var entries := Feed(pubs, order);
    forall i | 0 <= i < |entries|
      ensures "uid" in entries[i] && entries[i]["uid"] == Text(order[i])
    {
      FeedEntryUid(pubs, order, i);
    }
    forall u ensures u in pubs <==> exists i :: 0 <= i < |entries| && entries[i]["uid"] == Text(u) {
      if u in pubs {
        assert u in order;
        var i :| 0 <= i < |order| && order[i] == u;
        assert entries[i]["uid"] == Text(u);
      }
      if exists i :: 0 <= i < |entries| && entries[i]["uid"] == Text(u) {
        var i :| 0 <= i < |entries| && entries[i]["uid"] == Text(u);
        assert order[i] == u;
      }
    }
  }
}
