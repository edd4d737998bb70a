/** The module table: one record per module slot, as `mango_module`
    (src/mango.c:186-208) holds it, and the facts the import protocol keeps
    about the table. */
module Registry {
  import opened Words
  import opened Results
  import opened Images
  import opened Frames

  /** A slot of the module table. `image` is `None` until the host supplies
      the module; `imports` is `None` while the import-index array has not
      been allocated (the null reference). `visited` is the VISITED bit of
      `flags`, kept apart from the host's import flags. */
  datatype ModuleRec = ModuleRec(image: Option<Image>, imageSize: u16, index: u8,
                                 flags: ImportFlags, visited: bool,
                                 initNext: u8, initPrev: u8,
                                 nameModule: u8, nameIndex: u8,
                                 imports: Option<seq<u8>>)

  /** A slot of the zero-filled table allocated at startup (src/mango.c:576-578). */
  const ZeroSlot := ModuleRec(None, 0, 0, ImportFlags(false, false), false, 0, 0, 0, 0, None)

  /** Slot m's name can be looked up: the slot that named it has an image
      whose import list has an entry at `nameIndex`. */
  predicate HasName(mods: seq<ModuleRec>, m: int) {
    0 <= m < |mods| && mods[m].nameModule as int < |mods| &&
    mods[mods[m].nameModule].image.Some? &&
    mods[m].nameIndex as int < |mods[mods[m].nameModule].image.value.imports|
  }

  /** `_mango_get_module_name` (src/mango.c:491-498): a name is not stored
      twice; slot m's name is entry `nameIndex` of the import list of the
      module that first named it. */
  function ModuleName(mods: seq<ModuleRec>, m: int): (n: Name)
    requires HasName(mods, m)
    ensures n in mods[mods[m].nameModule].image.value.imports
  {
    mods[mods[m].nameModule].image.value.imports[mods[m].nameIndex]
  }

  /** The name a registered index stands for: index 0 is the application,
      which is known by the name it was imported under. */
  function NameOf(mods: seq<ModuleRec>, appName: Name, m: int): Name
    requires m == 0 || HasName(mods, m)
  {
    if m == 0 then appName else ModuleName(mods, m)
  }

  /** Module i's import-index array resolves its import list: entry k holds
      the registered index of the module named by import k. */
  predicate Resolved(mods: seq<ModuleRec>, created: nat, appName: Name, i: nat)
    requires i < |mods| && mods[i].image.Some? && mods[i].imports.Some?
    requires forall j :: 1 <= j < created ==> HasName(mods, j)
  {
    var names := mods[i].image.value.imports;
    var ix := mods[i].imports.value;
    |ix| == |names| &&
    forall k :: 0 <= k < |ix| ==> ix[k] as int < created && NameOf(mods, appName, ix[k] as int) == names[k]
  }

  /** What the import protocol keeps true once the application is in:
      slots [0, imported) hold supplied modules, [imported, created) are
      registered and awaiting their images, every slot's `index` is its
      position, every name is found through a supplied module's import list,
      no name is registered twice (and none is the application's), and
      every import array that exists resolves its list. */
  predicate Registered(mods: seq<ModuleRec>, created: nat, imported: nat, appName: Name) {
    1 <= imported <= created <= |mods| <= 255 &&
    (forall i :: 0 <= i < created ==> mods[i].index as int == i) &&
    (forall i :: 0 <= i < imported ==> mods[i].image.Some?) &&
    (forall i :: imported <= i < created ==> mods[i].image.None? && mods[i].imports.None?) &&
    (forall i :: 1 <= i < created ==> mods[i].nameModule as int < imported && HasName(mods, i)) &&
    (forall i :: 1 <= i < created ==> ModuleName(mods, i) != appName) &&
    (forall i, j :: 1 <= i < j < created ==> ModuleName(mods, i) != ModuleName(mods, j)) &&
    (forall i :: 0 <= i < imported && mods[i].imports.Some? ==> Resolved(mods, created, appName, i))
  }

  /** The names slots 1 .. created - 1 carry. */
  function Names(mods: seq<ModuleRec>, created: nat): set<Name>
    requires forall j :: 1 <= j < created ==> HasName(mods, j)
  {
    if created <= 1 then {} else Names(mods, created - 1) + {ModuleName(mods, created - 1)}
  }

  /** A name is carried exactly when some slot carries it. */
  lemma {:induction false} InNames(mods: seq<ModuleRec>, created: nat, n: Name)
    requires forall j :: 1 <= j < created ==> HasName(mods, j)
    ensures n in Names(mods, created) <==> exists j :: 1 <= j < created && ModuleName(mods, j) == n
  {
    if created > 1 {
      InNames(mods, created - 1, n);
    }
  }

  /** Slots that carry the same names up to `created` give the same set. */
  lemma {:induction false} SameNames(mods: seq<ModuleRec>, mods': seq<ModuleRec>, created: nat)
    requires forall j :: 1 <= j < created ==> HasName(mods, j) && HasName(mods', j)
    requires forall j :: 1 <= j < created ==> ModuleName(mods', j) == ModuleName(mods, j)
    ensures Names(mods', created) == Names(mods, created)
  {
    if created > 1 {
      SameNames(mods, mods', created - 1);
    }
  }

  /** The names of an import list other than the application's. */
  function Foreign(appName: Name, names: seq<Name>): set<Name> {
    set n | n in names && n != appName
  }

  /** The names of an import list that are neither the application's nor
      carried by any slot yet: resolving the list registers exactly these,
      each in a slot of its own. */
  function NewNames(mods: seq<ModuleRec>, created: nat, appName: Name, names: seq<Name>): set<Name>
    requires forall j :: 1 <= j < created ==> HasName(mods, j)
  {
    Foreign(appName, names) - Names(mods, created)
  }

  /** No slot from `created` on holds an image or an import array. */
  predicate Vacant(mods: seq<ModuleRec>, created: nat) {
    forall i :: created <= i < |mods| ==> mods[i].image.None? && mods[i].imports.None?
  }

  /** a is b with at most its index and its name changed. */
  predicate Renamed(a: ModuleRec, b: ModuleRec) {
    a == b.(index := a.index, nameModule := a.nameModule, nameIndex := a.nameIndex)
  }

  /** a is b with at most its visited bit and its list links changed. */
  predicate Relinked(a: ModuleRec, b: ModuleRec) {
    a == b.(visited := a.visited, initNext := a.initNext, initPrev := a.initPrev)
  }

  /** The walk over the initializer list changes only visited bits and
      links, which registration does not look at. */
  lemma {:induction false} RegisteredRelinked(mods: seq<ModuleRec>, mods': seq<ModuleRec>, created: nat,
                                              imported: nat, appName: Name)
    requires Registered(mods, created, imported, appName) && Vacant(mods, created)
    requires |mods'| == |mods| && forall x :: 0 <= x < |mods| ==> Relinked(mods'[x], mods[x])
    ensures Registered(mods', created, imported, appName) && Vacant(mods', created)
  {
    forall x | 0 <= x < |mods|
      ensures mods'[x].image == mods[x].image && mods'[x].imports == mods[x].imports
      ensures mods'[x].index == mods[x].index && mods'[x].nameModule == mods[x].nameModule
      ensures mods'[x].nameIndex == mods[x].nameIndex
    {
      assert Relinked(mods'[x], mods[x]);
    }
    forall j | 1 <= j < created
      ensures HasName(mods', j) && ModuleName(mods', j) == ModuleName(mods, j)
    {
    }
    forall i | 0 <= i < imported && mods'[i].imports.Some?
      ensures Resolved(mods', created, appName, i)
    {
      assert Resolved(mods, created, appName, i);
    }
  }

  /** The search loop of `_mango_get_or_create_module` (src/mango.c:506-510):
      the first slot from 1 on that carries the name, if any does. */
  method FindName(mods: seq<ModuleRec>, created: nat, name: Name) returns (found: bool, i: nat)
    requires forall j :: 1 <= j < created ==> HasName(mods, j)
    ensures found <==> name in Names(mods, created)
    ensures found ==> 1 <= i < created && ModuleName(mods, i) == name
    ensures !found ==> forall j :: 1 <= j < created ==> ModuleName(mods, j) != name
  {
    InNames(mods, created, name);
    var k := 1;
    while k < created
      invariant 1 <= k && forall j :: 1 <= j < k && j < created ==> ModuleName(mods, j) != name
    {
      if ModuleName(mods, k) == name {
        return true, k;
      }
      k := k + 1;
    }
    return false, 0;
  }

  /** `_mango_get_or_create_module` (src/mango.c:500-522) on the module
      table: the index a name registers under. The application's name is
      index 0; a name some slot already carries is that slot; otherwise the
      next slot is claimed and named by entry `nameIndex` of module
      `nameModule`'s import list. Either way the index stands for the name,
      and every index given out before stands for what it stood for. */
  method GetOrCreate(mods: seq<ModuleRec>, created: nat, imported: nat, appName: Name,
                     name: Name, nameModule: u8, nameIndex: u8)
    returns (mods': seq<ModuleRec>, created': nat, index: u8)
    requires Registered(mods, created, imported, appName) && Vacant(mods, created)
    requires name != appName && name !in Names(mods, created) ==> created < |mods|
    requires nameModule as int < imported && nameIndex as int < |mods[nameModule].image.value.imports|
    requires mods[nameModule].image.value.imports[nameIndex] == name
    ensures Registered(mods', created', imported, appName) && Vacant(mods', created')
    ensures index as int < created' && NameOf(mods', appName, index as int) == name
    ensures created' == created <==> name == appName || name in Names(mods, created)
    ensures Names(mods', created') == Names(mods, created) + Foreign(appName, [name])
    ensures created' == created ==> mods' == mods
    ensures created' != created ==>
              created' == created + 1 && index as int == created &&
              mods' == mods[created := mods[created].(index := created, nameModule := nameModule,
                                                      nameIndex := nameIndex)]
    ensures forall j :: 0 <= j < created ==> NameOf(mods', appName, j) == NameOf(mods, appName, j)
  {
    if name == appName {
      return mods, created, 0;
    }
    var found, i := FindName(mods, created, name);
    if found {
      return mods, created, i as u8;
    }
    RegisterNew(mods, created, imported, appName, name, nameModule, nameIndex);
    index := created;
    mods' := mods[created := mods[created].(index := created, nameModule := nameModule,
                                            nameIndex := nameIndex)];
    created' := created + 1;
    NamesRegistered(mods, created, imported, appName, name, nameModule, nameIndex);
  }

  /** The loop of `_mango_initialize_module` (src/mango.c:536-539): the
      index each import of module m registers under, in order. Only names
      are added to the table. */
  method ResolveAll(mods: seq<ModuleRec>, created: nat, imported: nat, appName: Name, m: nat)
    returns (mods': seq<ModuleRec>, created': nat, ix: seq<u8>)
    requires Registered(mods, created, imported, appName) && Vacant(mods, created) && m < imported
    requires created + |NewNames(mods, created, appName, mods[m].image.value.imports)| <= |mods|
    ensures Registered(mods', created', imported, appName) && Vacant(mods', created')
    ensures |mods'| == |mods| && created' == created + |NewNames(mods, created, appName, mods[m].image.value.imports)|
    ensures Names(mods', created') == Names(mods, created) + Foreign(appName, mods[m].image.value.imports)
    ensures forall x :: 0 <= x < |mods| ==> Renamed(mods'[x], mods[x])
    ensures forall x :: 0 <= x < created || created' <= x < |mods| ==> mods'[x] == mods[x]
    ensures |ix| == |mods[m].image.value.imports|
    ensures forall k :: 0 <= k < |ix| ==>
              ix[k] as int < created' && NameOf(mods', appName, ix[k] as int) == mods[m].image.value.imports[k]
  {
    var names := mods[m].image.value.imports;
    mods', created', ix := mods, created, [];
    for i := 0 to |names|
      invariant Registered(mods', created', imported, appName) && Vacant(mods', created')
      invariant |mods'| == |mods| && created' == created + |NewNames(mods, created, appName, names[..i])|
      invariant Names(mods', created') == Names(mods, created) + Foreign(appName, names[..i])
      invariant mods'[m] == mods[m]
      invariant forall x :: 0 <= x < |mods| ==> Renamed(mods'[x], mods[x])
      invariant forall x :: 0 <= x < created || created' <= x < |mods| ==> mods'[x] == mods[x]
      invariant |ix| == i
      invariant forall k :: 0 <= k < i ==> ix[k] as int < created' && NameOf(mods', appName, ix[k] as int) == names[k]
    {
      var index;
      ghost var N, F, F', G := Names(mods, created), Foreign(appName, names[..i]),
                               Foreign(appName, names[..i + 1]), Foreign(appName, [names[i]]);
      ForeignStep(appName, names, i);
      ForeignOne(appName, names[i]);
      if names[i] != appName && names[i] !in Names(mods', created') {
        RoomSets(N, F, F', Foreign(appName, names), names[i], Names(mods', created'), created, created', |mods|);
      }
      ghost var (mods0, created0) := (mods', created');
      mods', created', index := GetOrCreate(mods', created', imported, appName, names[i], mods'[m].index, i);
      CountSets(N, F, F', G, names[i], Names(mods0, created0), Names(mods', created'), created, created0, created');
      IndicesKept(mods0, created0, mods', created', imported, appName, names, ix, index);
      SlotsKept(mods, created, mods0, created0, mods', created', m, mods0[m].index, i as u8);
      ix := ix + [index];
    }
    assert names[..|names|] == names;
  }

  /** One more registration changes at most slot `created0` and only its
      index and name, so the slots resolving leaves alone stay as they were. */
  lemma SlotsKept(mods: seq<ModuleRec>, created: nat, mods0: seq<ModuleRec>, created0: nat,
                  mods1: seq<ModuleRec>, created1: nat, m: nat, nameModule: u8, nameIndex: u8)
    requires |mods0| == |mods| && m < created <= created0 <= |mods| <= 255
    requires forall x :: 0 <= x < |mods| ==> Renamed(mods0[x], mods[x])
    requires forall x :: 0 <= x < created || created0 <= x < |mods| ==> mods0[x] == mods[x]
    requires created1 == created0 ==> mods1 == mods0
    requires created1 != created0 ==>
               created1 == created0 + 1 && created0 < |mods| &&
               mods1 == mods0[created0 := mods0[created0].(index := created0, nameModule := nameModule,
                                                         nameIndex := nameIndex)]
    ensures |mods1| == |mods| && mods1[m] == mods[m]
    ensures forall x :: 0 <= x < |mods| ==> Renamed(mods1[x], mods[x])
    ensures forall x :: 0 <= x < created || created1 <= x < |mods| ==> mods1[x] == mods[x]
  {
  }

  /** Indices given out earlier keep standing for their names when one
      more name is registered, so the array grows by the new index. */
  lemma IndicesKept(mods: seq<ModuleRec>, created: nat, mods': seq<ModuleRec>, created': nat,
                    imported: nat, appName: Name, names: seq<Name>, ix: seq<u8>, index: u8)
    requires Registered(mods, created, imported, appName) && Registered(mods', created', imported, appName)
    requires created <= created' && |ix| < |names|
    requires forall k :: 0 <= k < |ix| ==> ix[k] as int < created && NameOf(mods, appName, ix[k] as int) == names[k]
    requires forall j :: 0 <= j < created ==> NameOf(mods', appName, j) == NameOf(mods, appName, j)
    requires index as int < created' && NameOf(mods', appName, index as int) == names[|ix|]
    ensures forall k :: 0 <= k < |ix| + 1 ==>
              (ix + [index])[k] as int < created' && NameOf(mods', appName, (ix + [index])[k] as int) == names[k]
  {
    forall k | 0 <= k < |ix| + 1
      ensures (ix + [index])[k] as int < created' && NameOf(mods', appName, (ix + [index])[k] as int) == names[k]
    {
      if k < |ix| {
        assert (ix + [index])[k] == ix[k];
      }
    }
  }

  /** The count behind resolving one more name. The list's foreign names
      grow from F to F' by the name's own foreign part G; the names carried,
      K == N + F, grow by G; and the slots taken, c == c0 + |F - N|, grow by
      one exactly when the name is foreign and not carried yet. */
  lemma CountSets<T>(N: set<T>, F: set<T>, F': set<T>, G: set<T>, x: T,
                     K: set<T>, K': set<T>, c0: nat, c: nat, c': nat)
    requires F' == F + G && (G == {} || G == {x})
    requires K == N + F && c == c0 + |F - N| && K' == K + G
    requires c' == c <==> G == {} || x in K
    requires c' == c || c' == c + 1
    ensures K' == N + F' && c' == c0 + |F' - N|
  {
    if G == {} || x in K {
      assert F' - N == F - N;
    } else {
      assert F' - N == (F - N) + {x};
    }
  }

  /** A name that is foreign and not carried yet still fits: the slots
      taken so far leave room for all of the list's new names. */
  lemma RoomSets<T>(N: set<T>, F: set<T>, F': set<T>, Fall: set<T>, x: T,
                    K: set<T>, c0: nat, c: nat, total: nat)
    requires F' == F + {x} && F' <= Fall && K == N + F && x !in K
    requires c == c0 + |F - N| && c0 + |Fall - N| <= total
    ensures c < total
  {
    assert F' - N == (F - N) + {x};
    SubsetSize(F' - N, Fall - N);
  }

  /** The foreign part of a single name. */
  lemma ForeignOne(appName: Name, x: Name)
    ensures Foreign(appName, [x]) == if x == appName then {} else {x}
  {
    assert forall n :: n in Foreign(appName, [x]) <==> n == x && x != appName;
  }

  /** The foreign names of a prefix one longer, and those of a prefix are
      among those of the list. */
  lemma ForeignStep(appName: Name, names: seq<Name>, i: nat)
    requires i < |names|
    ensures Foreign(appName, names[..i + 1]) == Foreign(appName, names[..i]) + Foreign(appName, [names[i]])
    ensures Foreign(appName, names[..i + 1]) <= Foreign(appName, names)
  {
    assert names[..i + 1] == names[..i] + [names[i]];
    forall n | n in names[..i + 1] ensures n in names {
    }
  }

  lemma SubsetSize<T>(a: set<T>, b: set<T>)
    requires a <= b
    ensures |a| <= |b|
  {
    assert b == a + (b - a);
  }

  /** The registered index a name resolves to, if any: 0 for the
      application's name, otherwise the one slot carrying that name. */
  lemma {:induction false} NamesIdentifySlots(mods: seq<ModuleRec>, created: nat, imported: nat,
                                              appName: Name, i: nat, j: nat)
    requires Registered(mods, created, imported, appName)
    requires i < created && j < created
    requires NameOf(mods, appName, i) == NameOf(mods, appName, j)
    ensures i == j
  {
  }

  /** A name that is neither the application's nor carried by any slot
      yet gets the next free slot, named by entry `ni` of module `nm`'s
      import list; every other slot keeps its name. */
  lemma {:induction false} RegisterNew(mods: seq<ModuleRec>, created: nat, imported: nat,
                                       appName: Name, name: Name, nm: u8, ni: u8)
    requires Registered(mods, created, imported, appName) && created < |mods|
    requires mods[created].image.None? && mods[created].imports.None?
    requires nm as int < imported && ni as int < |mods[nm].image.value.imports|
    requires mods[nm].image.value.imports[ni] == name
    requires name != appName && forall j :: 1 <= j < created ==> ModuleName(mods, j) != name
    ensures Registered(mods[created := mods[created].(index := created, nameModule := nm, nameIndex := ni)],
                       created + 1, imported, appName)
    ensures HasName(mods[created := mods[created].(index := created, nameModule := nm, nameIndex := ni)], created)
    ensures ModuleName(mods[created := mods[created].(index := created, nameModule := nm, nameIndex := ni)],
                       created) == name
    ensures forall j :: 1 <= j < created ==>
              HasName(mods[created := mods[created].(index := created, nameModule := nm, nameIndex := ni)], j) &&
              ModuleName(mods[created := mods[created].(index := created, nameModule := nm, nameIndex := ni)], j) ==
              ModuleName(mods, j)
  {
    var mods' := mods[created := mods[created].(index := created, nameModule := nm, nameIndex := ni)];
    assert nm as int != created;
    forall j | 1 <= j < created
      ensures HasName(mods', j) && ModuleName(mods', j) == ModuleName(mods, j)
    {
      assert mods'[j] == mods[j];
    }
    forall i | 0 <= i < imported && mods'[i].imports.Some?
      ensures Resolved(mods', created + 1, appName, i)
    {
      assert Resolved(mods, created, appName, i);
    }
  }

  /** After a new name is registered, the names the slots carry are the
      old ones and that name. */
  lemma NamesRegistered(mods: seq<ModuleRec>, created: nat, imported: nat,
                        appName: Name, name: Name, nm: u8, ni: u8)
    requires Registered(mods, created, imported, appName) && created < |mods|
    requires mods[created].image.None? && mods[created].imports.None?
    requires nm as int < imported && ni as int < |mods[nm].image.value.imports|
    requires mods[nm].image.value.imports[ni] == name
    requires name != appName && forall j :: 1 <= j < created ==> ModuleName(mods, j) != name
    ensures var mods' := mods[created := mods[created].(index := created, nameModule := nm, nameIndex := ni)];
            Names(mods', created + 1) == Names(mods, created) + {name}
  {
    var mods' := mods[created := mods[created].(index := created, nameModule := nm, nameIndex := ni)];
    RegisterNew(mods, created, imported, appName, name, nm, ni);
    SameNames(mods, mods', created);
  }

  /** Setting module m's import array to indices that resolve its import
      list keeps the table registered. */
  lemma {:induction false} ResolveImports(mods: seq<ModuleRec>, created: nat, imported: nat,
                                          appName: Name, m: nat, ix: seq<u8>)
    requires Registered(mods, created, imported, appName) && m < imported
    requires |ix| == |mods[m].image.value.imports|
    requires forall k :: 0 <= k < |ix| ==>
               ix[k] as int < created && NameOf(mods, appName, ix[k] as int) == mods[m].image.value.imports[k]
    ensures Registered(mods[m := mods[m].(imports := Some(ix))], created, imported, appName)
    ensures Resolved(mods[m := mods[m].(imports := Some(ix))], created, appName, m)
  {
    var mods' := mods[m := mods[m].(imports := Some(ix))];
    forall j | 1 <= j < created
      ensures HasName(mods', j) && ModuleName(mods', j) == ModuleName(mods, j)
    {
    }
    forall i | 0 <= i < imported && mods'[i].imports.Some?
      ensures Resolved(mods', created, appName, i)
    {
      if i != m {
        assert Resolved(mods, created, appName, i);
      }
    }
  }

  /** The host supplies the image of the first registered but missing
      module: it becomes imported, with its links cleared, and every name
      stays where it was. */
  lemma {:induction false} SupplyNext(mods: seq<ModuleRec>, created: nat, imported: nat,
                                      appName: Name, img: Image, size: u16, flags: ImportFlags)
    requires Registered(mods, created, imported, appName) && imported < created
    ensures Registered(mods[imported := mods[imported].(image := Some(img), imageSize := size, flags := flags,
                                                          initNext := INVALID_MODULE, initPrev := INVALID_MODULE)],
                       created, imported + 1, appName)
    ensures Names(mods[imported := mods[imported].(image := Some(img), imageSize := size, flags := flags,
                                                     initNext := INVALID_MODULE, initPrev := INVALID_MODULE)],
                  created) == Names(mods, created)
  {
    var mods' := mods[imported := mods[imported].(image := Some(img), imageSize := size, flags := flags,
                                                    initNext := INVALID_MODULE, initPrev := INVALID_MODULE)];
    forall j | 1 <= j < created
      ensures HasName(mods', j) && ModuleName(mods', j) == ModuleName(mods, j)
    {
      assert mods[j].nameModule as int != imported;
    }
    SameNames(mods, mods', created);
    forall i | 0 <= i < imported + 1 && mods'[i].imports.Some?
      ensures Resolved(mods', created, appName, i)
    {
      assert Resolved(mods, created, appName, i);
    }
  }
}
