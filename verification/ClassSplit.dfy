/** Which Swift classes keep the guest's class layout: those whose every ancestor is the guest's own. They leave the class
  * lists for the lists of static Swift classes.
  */
module ClassSplit {
  import opened Wrappers
  import opened Sets

  const MAX_DEPTH: nat := 256

  datatype Pointer = Null | Local(host: nat) | Import(symbol: string) | Raw(host: nat)

  datatype Class = Class(address: nat, swift: bool, superclass: Pointer, metaclass: nat)

  datatype Image = Image(classes: seq<Class>, staticClasses: seq<nat>, clsrolistSuperclass: seq<(nat, Pointer)>,
                         listedClasses: seq<nat>, categories: seq<Pointer>)

  // --- the superclass of every class the two tables give ---

  function Noted(m: map<nat, Pointer>, listings: seq<(nat, Pointer)>): map<nat, Pointer> {
    if listings == [] then m
    else
      var last := listings[|listings| - 1];
      Noted(m, listings[..|listings| - 1])[last.0 := last.1]
  }

  function Listings(classes: seq<Class>): seq<(nat, Pointer)> {
    seq(|classes|, i requires 0 <= i < |classes| => (classes[i].address, classes[i].superclass))
  }

  function SuperclassOf(images: seq<Image>): map<nat, Pointer> {
    if images == [] then map[]
    else
      var last := images[|images| - 1];
      Noted(Noted(SuperclassOf(images[..|images| - 1]), Listings(last.classes)), last.clsrolistSuperclass)
  }

  lemma NotedMore(m: map<nat, Pointer>, listings: seq<(nat, Pointer)>, k: nat)
    requires k < |listings|
    ensures Noted(m, listings[..k + 1]) == Noted(m, listings[..k])[listings[k].0 := listings[k].1]
  {
    assert listings[..k + 1][..k] == listings[..k];
  }

  method NoteAll(m: map<nat, Pointer>, listings: seq<(nat, Pointer)>) returns (r: map<nat, Pointer>)
    ensures r == Noted(m, listings)
  {
    r := m;
    for k := 0 to |listings|
      invariant r == Noted(m, listings[..k])
    {
      NotedMore(m, listings, k);
      r := r[listings[k].0 := listings[k].1];
    }
    assert listings[..|listings|] == listings;
  }

  // Entry k of the first table of an image, its classes, or of the second gives this superclass to the class.
  predicate Lists(image: Image, second: bool, k: nat, address: nat, p: Pointer) {
    if second then k < |image.clsrolistSuperclass| && image.clsrolistSuperclass[k] == (address, p)
    else k < |image.classes| && image.classes[k].address == address && image.classes[k].superclass == p
  }

  // Nothing in the list names the address from entry k on.
  predicate NoneFrom(listings: seq<(nat, Pointer)>, k: nat, address: nat) {
    forall m :: k <= m < |listings| ==> listings[m].0 != address
  }

  predicate NoneIn(image: Image, address: nat) {
    NoneFrom(Listings(image.classes), 0, address) && NoneFrom(image.clsrolistSuperclass, 0, address)
  }

  // No later entry of the image names the address.
  predicate NoneAfter(image: Image, second: bool, k: nat, address: nat) {
    if second then NoneFrom(image.clsrolistSuperclass, k + 1, address)
    else NoneFrom(Listings(image.classes), k + 1, address) && NoneFrom(image.clsrolistSuperclass, 0, address)
  }

  // The last entry for an address: in the last image that has one, in its second table if it is there, and there the last.
  ghost predicate LastListing(images: seq<Image>, i: nat, second: bool, k: nat, address: nat, p: Pointer) {
    && i < |images| && Lists(images[i], second, k, address, p) && NoneAfter(images[i], second, k, address)
    && forall j :: i < j < |images| ==> NoneIn(images[j], address)
  }

  lemma {:induction false} NotedIs(m: map<nat, Pointer>, listings: seq<(nat, Pointer)>, k: nat, address: nat)
    ensures k < |listings| && listings[k].0 == address && NoneFrom(listings, k + 1, address) ==>
      address in Noted(m, listings) && Noted(m, listings)[address] == listings[k].1
    ensures NoneFrom(listings, 0, address) ==>
      (address in Noted(m, listings) <==> address in m) && (address in m ==> Noted(m, listings)[address] == m[address])
  {
    if listings != [] {
      NotedIs(m, listings[..|listings| - 1], k, address);
    }
  }

  lemma {:induction false} LastEntry(listings: seq<(nat, Pointer)>, address: nat) returns (k: nat)
    ensures NoneFrom(listings, 0, address) || (k < |listings| && listings[k].0 == address && NoneFrom(listings, k + 1, address))
  {
    k := 0;
    if listings != [] {
      var n := |listings| - 1;
      if listings[n].0 == address {
        k := n;
      } else {
        k := LastEntry(listings[..n], address);
      }
    }
  }

  lemma ImageNoted(m: map<nat, Pointer>, image: Image, second: bool, k: nat, address: nat, p: Pointer)
    ensures var r := Noted(Noted(m, Listings(image.classes)), image.clsrolistSuperclass);
            && (Lists(image, second, k, address, p) && NoneAfter(image, second, k, address) ==> address in r && r[address] == p)
            && (NoneIn(image, address) ==> (address in r <==> address in m) && (address in m ==> r[address] == m[address]))
  {
    NotedIs(m, Listings(image.classes), k, address);
    NotedIs(Noted(m, Listings(image.classes)), image.clsrolistSuperclass, k, address);
    hide Noted, NoneFrom;
  }

  lemma SomeListing(image: Image, address: nat) returns (second: bool, k: nat, p: Pointer)
    ensures NoneIn(image, address) || (Lists(image, second, k, address, p) && NoneAfter(image, second, k, address))
  {
    k := LastEntry(image.clsrolistSuperclass, address);
    second, p := true, Null;
    if NoneFrom(image.clsrolistSuperclass, 0, address) {
      second := false;
      k := LastEntry(Listings(image.classes), address);
      if !NoneFrom(Listings(image.classes), 0, address) {
        p := Listings(image.classes)[k].1;
      }
    } else {
      p := image.clsrolistSuperclass[k].1;
    }
    hide NoneFrom;
  }

  // The tables give a class the superclass of the last entry for it.
  lemma {:induction false} SuperclassIsLast(images: seq<Image>, address: nat, p: Pointer)
    ensures address in SuperclassOf(images) && SuperclassOf(images)[address] == p <==>
            exists i: nat, second, k: nat :: LastListing(images, i, second, k, address, p)
  {
    if images != [] {
      var n := |images| - 1;
      var before, last := images[..n], images[n];
      SuperclassIsLast(before, address, p);
      var second, k, q := SomeListing(last, address);
      ImageNoted(SuperclassOf(before), last, second, k, address, q);
      hide Lists, NoneAfter, NoneIn, Noted;
      if NoneIn(last, address) {
        forall i: nat, s, m: nat
          ensures LastListing(images, i, s, m, address, p) <==> LastListing(before, i, s, m, address, p)
        {
          NothingThere(last, s, m, address, p);
          assert forall j :: 0 <= j < n ==> before[j] == images[j];
        }
      } else {
        LastOfImage(images, second, k, address, q);
        forall i: nat, s, m: nat | LastListing(images, i, s, m, address, p) ensures p == q {
          OnlyLast(images, i, s, m, p, second, k, q, address);
        }
      }
    }
  }

  lemma NothingThere(image: Image, second: bool, k: nat, address: nat, p: Pointer)
    requires NoneIn(image, address)
    ensures !Lists(image, second, k, address, p)
  {
    if !second && k < |image.classes| {
      assert Listings(image.classes)[k].0 == image.classes[k].address;
    }
  }

  lemma LastOfImage(images: seq<Image>, second: bool, k: nat, address: nat, q: Pointer)
    requires images != []
    requires Lists(images[|images| - 1], second, k, address, q) && NoneAfter(images[|images| - 1], second, k, address)
    ensures LastListing(images, |images| - 1, second, k, address, q)
  {
  }

  lemma OnlyLast(images: seq<Image>, i: nat, s: bool, m: nat, p: Pointer, second: bool, k: nat, q: Pointer, address: nat)
    requires images != [] && LastListing(images, i, s, m, address, p) && !NoneIn(images[|images| - 1], address)
    requires LastListing(images, |images| - 1, second, k, address, q)
    ensures p == q
  {
    var image := images[|images| - 1];
    assert i == |images| - 1;
    if !s && m < |image.classes| {
      assert Listings(image.classes)[m] == (address, p);
    }
    if !second && k < |image.classes| {
      assert Listings(image.classes)[k] == (address, q);
    }
  }

  method CollectSuperclasses(images: seq<Image>) returns (r: map<nat, Pointer>)
    ensures r == SuperclassOf(images)
  {
    r := map[];
    for i := 0 to |images|
      invariant r == SuperclassOf(images[..i])
    {
      r := NoteAll(r, Listings(images[i].classes));
      r := NoteAll(r, images[i].clsrolistSuperclass);
      assert images[..i + 1][..i] == images[..i];
    }
    assert images[..|images|] == images;
  }

  // --- chains of superclasses ---

  // The pointer n steps above one, through classes the tables know.
  ghost function Up(sup: map<nat, Pointer>, p: Pointer, n: nat): Option<Pointer>
    decreases n
  {
    if n == 0 then Some(p)
    else if p.Local? && p.host in sup then Up(sup, sup[p.host], n - 1)
    else None
  }

  ghost predicate EndsAtNull(sup: map<nat, Pointer>, p: Pointer) {
    exists n: nat :: Up(sup, p, n) == Some(Null)
  }

  ghost predicate GuestOnly(sup: map<nat, Pointer>, p: Pointer) {
    exists n: nat :: n < 256 && Up(sup, p, n) == Some(Null)
  }

  lemma {:induction false} UpUp(sup: map<nat, Pointer>, p: Pointer, n: nat, m: nat)
    requires Up(sup, p, n).Some?
    ensures Up(sup, p, n + m) == Up(sup, Up(sup, p, n).value, m)
    decreases n
  {
    if n > 0 {
      UpUp(sup, sup[p.host], n - 1, m);
    }
  }

  // A chain ends once.
  lemma {:induction false} EndIsOne(sup: map<nat, Pointer>, p: Pointer, n: nat, m: nat)
    requires Up(sup, p, n) == Some(Null)
    ensures m < n ==> Up(sup, p, m).Some? && Up(sup, p, m).value.Local? && Up(sup, p, m).value.host in sup
    ensures m > n ==> Up(sup, p, m).None?
    decreases n
  {
    if n > 0 && m > 0 {
      EndIsOne(sup, sup[p.host], n - 1, m - 1);
    }
  }

  method IsGuestOnly(sup: map<nat, Pointer>, start: Pointer) returns (r: bool)
    ensures r <==> GuestOnly(sup, start)
  {
    var superclass := start;
    for depth := 0 to MAX_DEPTH
      invariant Up(sup, start, depth) == Some(superclass)
      invariant forall n: nat :: n < depth ==> Up(sup, start, n) != Some(Null)
    {
      match superclass
      case Null =>
        return true;
      case Local(host) =>
        UpUp(sup, start, depth, 1);
        assert Up(sup, superclass, 1) == if host in sup then Up(sup, sup[host], 0) else None;
        if host !in sup {
          NeverEnds(sup, start, depth);
          return false;
        }
        superclass := sup[host];
      case _ =>
        NeverEnds(sup, start, depth);
        return false;
    }
    return false;
  }

  // Past a pointer that is neither null nor known there is nothing.
  lemma NeverEnds(sup: map<nat, Pointer>, start: Pointer, depth: nat)
    requires Up(sup, start, depth).Some?
    requires var p := Up(sup, start, depth).value; !p.Null? && !(p.Local? && p.host in sup)
    requires forall n: nat :: n < depth ==> Up(sup, start, n) != Some(Null)
    ensures !EndsAtNull(sup, start) && !GuestOnly(sup, start)
  {
    hide Up;
    if n: nat :| Up(sup, start, n) == Some(Null) {
      EndIsOne(sup, start, n, depth);
    }
  }

  // A chain that comes back to where it was never ends, however far it is followed.
  lemma CycleNeverEnds(sup: map<nat, Pointer>, p: Pointer, i: nat, j: nat)
    requires i < j && Up(sup, p, i).Some? && Up(sup, p, j) == Up(sup, p, i)
    ensures !EndsAtNull(sup, p) && !GuestOnly(sup, p)
  {
    if n: nat :| Up(sup, p, n) == Some(Null) {
      EndIsOne(sup, p, n, j);
      EndIsOne(sup, p, n, i);
      // As far from the end at j as at i.
      var q := Up(sup, p, i).value;
      UpUp(sup, p, i, n - i);
      UpUp(sup, p, j, n - i);
      EndIsOne(sup, p, n, j + (n - i));
    }
  }

  // The classes the first n steps of an ending chain lead through.
  ghost function Through(sup: map<nat, Pointer>, p: Pointer, n: nat): set<nat> {
    if n == 0 then {}
    else Through(sup, p, n - 1) + match Up(sup, p, n - 1) case Some(Local(host)) => {host} case _ => {}
  }

  lemma {:induction false} ThroughThese(sup: map<nat, Pointer>, p: Pointer, n: nat, host: nat)
    requires host in Through(sup, p, n)
    ensures exists i: nat :: i < n && Up(sup, p, i) == Some(Local(host))
    decreases n
  {
    if host in Through(sup, p, n - 1) {
      ThroughThese(sup, p, n - 1, host);
    } else {
      assert Up(sup, p, n - 1) == Some(Local(host));
    }
  }

  lemma {:induction false} ThroughDistinct(sup: map<nat, Pointer>, p: Pointer, end: nat, n: nat)
    requires Up(sup, p, end) == Some(Null) && n <= end
    ensures |Through(sup, p, n)| == n && Through(sup, p, n) <= sup.Keys
    decreases n
  {
    if n > 0 {
      ThroughDistinct(sup, p, end, n - 1);
      EndIsOne(sup, p, end, n - 1);
      var host := Up(sup, p, n - 1).value.host;
      if host in Through(sup, p, n - 1) {
        ThroughThese(sup, p, n - 1, host);
        var i: nat :| i < n - 1 && Up(sup, p, i) == Some(Local(host));
        CycleNeverEnds(sup, p, i, n - 1);
        assert false;
      }
    }
  }

  // With fewer than 256 classes the depth bound changes nothing.
  lemma BoundIsAmple(sup: map<nat, Pointer>, p: Pointer)
    requires |sup| < MAX_DEPTH
    ensures GuestOnly(sup, p) <==> EndsAtNull(sup, p)
  {
    if n: nat :| Up(sup, p, n) == Some(Null) {
      ThroughDistinct(sup, p, n, n);
      SubsetSize(Through(sup, p, n), sup.Keys);
      assert |sup.Keys| == |sup|;
    }
  }

  // --- the classes that move ---

  ghost predicate Listed(images: seq<Image>, c: Class) {
    exists i :: 0 <= i < |images| && c in images[i].classes
  }

  ghost predicate Qualifies(images: seq<Image>, c: Class) {
    Listed(images, c) && c.swift && GuestOnly(SuperclassOf(images), c.superclass)
  }

  ghost predicate Moves(images: seq<Image>, address: nat) {
    exists c :: Qualifies(images, c) && c.address == address
  }

  ghost predicate AreMoved(images: seq<Image>, moved: set<nat>) {
    forall address :: address in moved <==> Moves(images, address)
  }

  // Something else names a class that moves as its superclass, or extends it.
  ghost predicate Blocked(images: seq<Image>) {
    exists i :: 0 <= i < |images| && BlockedIn(images, images[i])
  }

  ghost predicate BlockedIn(images: seq<Image>, image: Image) {
    || (exists p :: p in image.categories && p.Local? && Moves(images, p.host))
    || (exists c :: c in image.classes && !Moves(images, c.address) && c.superclass.Local? && Moves(images, c.superclass.host))
  }

  function Kept(classes: seq<Class>, moved: set<nat>): seq<Class> {
    if classes == [] then []
    else
      var last := classes[|classes| - 1];
      Kept(classes[..|classes| - 1], moved) + if last.address in moved then [] else [last]
  }

  function Gone(classes: seq<Class>, moved: set<nat>): seq<Class> {
    if classes == [] then []
    else
      var last := classes[|classes| - 1];
      Gone(classes[..|classes| - 1], moved) + if last.address in moved then [last] else []
  }

  function Pairs(classes: seq<Class>): seq<nat> {
    if classes == [] then []
    else Pairs(classes[..|classes| - 1]) + [classes[|classes| - 1].address, classes[|classes| - 1].metaclass]
  }

  function Addresses(classes: seq<Class>): seq<nat> {
    seq(|classes|, i requires 0 <= i < |classes| => classes[i].address)
  }

  function Divided(image: Image, moved: set<nat>): Image {
    var gone := Gone(image.classes, moved);
    image.(classes := Kept(image.classes, moved),
           staticClasses := image.staticClasses + Pairs(gone),
           listedClasses := image.listedClasses + Addresses(gone))
  }

  method CollectMoved(images: seq<Image>, sup: map<nat, Pointer>) returns (moved: set<nat>)
    requires sup == SuperclassOf(images)
    ensures AreMoved(images, moved)
  {
    hide SuperclassOf, GuestOnly;
    moved := {};
    for i := 0 to |images|
      invariant forall address :: address in moved <==>
        exists c: Class :: c.address == address && Qualifies(images, c) && Listed(images[..i], c)
    {
      ghost var before := moved;
      var classes := images[i].classes;
      for k := 0 to |classes|
        invariant forall address :: address in moved <==>
          address in before || exists c: Class :: c.address == address && Qualifies(images, c) && c in classes[..k]
      {
        assert classes[..k + 1] == classes[..k] + [classes[k]];
        assert classes[k] in images[i].classes;
        var guestOnly := IsGuestOnly(sup, classes[k].superclass);
        if classes[k].swift && guestOnly {
          moved := moved + {classes[k].address};
        }
      }
      assert classes[..|classes|] == classes;
      forall c
        ensures Listed(images[..i + 1], c) <==> Listed(images[..i], c) || c in classes
      {
        ListedMore(images, i, c);
      }
    }
    assert images[..|images|] == images;
  }

  lemma ListedMore(images: seq<Image>, i: nat, c: Class)
    requires i < |images|
    ensures Listed(images[..i + 1], c) <==> Listed(images[..i], c) || c in images[i].classes
  {
    if Listed(images[..i], c) {
      var j :| 0 <= j < i && c in images[..i][j].classes;
      assert c in images[..i + 1][j].classes;
    }
    if c in images[i].classes {
      assert c in images[..i + 1][i].classes;
    }
    if Listed(images[..i + 1], c) && c !in images[i].classes {
      var j :| 0 <= j < i + 1 && c in images[..i + 1][j].classes;
      assert c in images[..i][j].classes;
    }
  }

  method IsBlockedIn(ghost images: seq<Image>, image: Image, moved: set<nat>) returns (r: bool)
    requires AreMoved(images, moved)
    ensures r <==> BlockedIn(images, image)
  {
    hide Moves;
    for k := 0 to |image.categories|
      invariant forall p :: p in image.categories[..k] ==> !(p.Local? && p.host in moved)
    {
      var p := image.categories[k];
      if p.Local? && p.host in moved {
        assert p in image.categories;
        return true;
      }
      assert image.categories[..k + 1] == image.categories[..k] + [p];
    }
    assert image.categories[..|image.categories|] == image.categories;
    for k := 0 to |image.classes|
      invariant forall c :: c in image.classes[..k] ==>
        !(c.address !in moved && c.superclass.Local? && c.superclass.host in moved)
    {
      var c := image.classes[k];
      if c.address !in moved && c.superclass.Local? && c.superclass.host in moved {
        assert c in image.classes;
        return true;
      }
      assert image.classes[..k + 1] == image.classes[..k] + [c];
    }
    assert image.classes[..|image.classes|] == image.classes;
    return false;
  }

  lemma NothingDivided(moved: set<nat>)
    ensures Kept([], moved) == [] && Pairs(Gone([], moved)) == [] && Addresses(Gone([], moved)) == []
  {
  }

  lemma DivideMore(before: seq<Class>, c: Class, moved: set<nat>)
    ensures var gone, all := Gone(before, moved), before + [c];
            && Kept(all, moved) == Kept(before, moved) + (if c.address in moved then [] else [c])
            && Pairs(Gone(all, moved)) == Pairs(gone) + (if c.address in moved then [c.address, c.metaclass] else [])
            && Addresses(Gone(all, moved)) == Addresses(gone) + (if c.address in moved then [c.address] else [])
  {
    var gone, all := Gone(before, moved), before + [c];
    assert all[..|before|] == before;
    assert (gone + [c])[..|gone|] == gone;
    assert Gone(all, moved) == if c.address in moved then gone + [c] else gone;
  }

  method Divide(image: Image, moved: set<nat>) returns (r: Image)
    ensures r == Divided(image, moved)
  {
    hide Kept, Gone, Pairs, Addresses;
    var classes := image.classes;
    NothingDivided(moved);
    var kept, statics, listed := [], image.staticClasses, image.listedClasses;
    for k := 0 to |classes|
      invariant kept == Kept(classes[..k], moved)
      invariant statics == image.staticClasses + Pairs(Gone(classes[..k], moved))
      invariant listed == image.listedClasses + Addresses(Gone(classes[..k], moved))
    {
      DivideMore(classes[..k], classes[k], moved);
      assert classes[..k + 1] == classes[..k] + [classes[k]];
      if classes[k].address in moved {
        statics := statics + [classes[k].address, classes[k].metaclass];
        listed := listed + [classes[k].address];
      } else {
        kept := kept + [classes[k]];
      }
    }
    assert classes[..|classes|] == classes;
    r := image.(classes := kept, staticClasses := statics, listedClasses := listed);
  }

  // False, and no list touched, where something names a class that would move. Otherwise every image is divided between the
  // classes that stay and those that move.
  method SplitGuestLayoutClasses(objc: array<Image>) returns (ok: bool, ghost moved: set<nat>)
    modifies objc
    ensures AreMoved(old(objc[..]), moved)
    ensures ok <==> !Blocked(old(objc[..]))
    ensures ok ==> forall i :: 0 <= i < objc.Length ==> objc[i] == Divided(old(objc[i]), moved)
    ensures !ok ==> objc[..] == old(objc[..])
  {
    hide Divided, AreMoved, BlockedIn, SuperclassOf;
    ghost var images := objc[..];
    var sup := CollectSuperclasses(objc[..]);
    var leaving := CollectMoved(objc[..], sup);
    moved := leaving;
    for i := 0 to objc.Length
      invariant objc[..] == images
      invariant forall j :: 0 <= j < i ==> !BlockedIn(images, images[j])
    {
      var blocked := IsBlockedIn(images, objc[i], leaving);
      if blocked {
        assert BlockedIn(images, images[i]);
        return false, leaving;
      }
    }
    for i := 0 to objc.Length
      invariant forall j :: 0 <= j < i ==> objc[j] == Divided(images[j], leaving)
      invariant forall j :: i <= j < objc.Length ==> objc[j] == images[j]
    {
      objc[i] := Divide(objc[i], leaving);
    }
    ok := true;
  }

  // --- what a division keeps ---

  // An interleaving: where each kept and each moved class stood.
  ghost predicate Merges(classes: seq<Class>, kept: seq<Class>, gone: seq<Class>, keptAt: seq<nat>, goneAt: seq<nat>) {
    && |keptAt| == |kept| && |goneAt| == |gone| && |kept| + |gone| == |classes|
    && (forall k :: 0 <= k < |kept| ==> keptAt[k] < |classes| && classes[keptAt[k]] == kept[k])
    && (forall k :: 0 <= k < |gone| ==> goneAt[k] < |classes| && classes[goneAt[k]] == gone[k])
    && (forall j, k :: 0 <= j < k < |kept| ==> keptAt[j] < keptAt[k])
    && (forall j, k :: 0 <= j < k < |gone| ==> goneAt[j] < goneAt[k])
    && (forall j, k :: 0 <= j < |kept| && 0 <= k < |gone| ==> keptAt[j] != goneAt[k])
  }

  lemma MergesMore(classes: seq<Class>, kept: seq<Class>, gone: seq<Class>, keptAt: seq<nat>, goneAt: seq<nat>, c: Class)
    requires Merges(classes, kept, gone, keptAt, goneAt)
    ensures Merges(classes + [c], kept + [c], gone, keptAt + [|classes|], goneAt)
  {
    var at := keptAt + [|classes|];
    forall j, k | 0 <= j < |at| && 0 <= k < |gone|
      ensures at[j] != goneAt[k]
    {
      assert goneAt[k] < |classes|;
      if j < |keptAt| {
        assert at[j] == keptAt[j];
      }
    }
  }

  lemma MergesEitherWay(classes: seq<Class>, kept: seq<Class>, gone: seq<Class>, keptAt: seq<nat>, goneAt: seq<nat>)
    requires Merges(classes, kept, gone, keptAt, goneAt)
    ensures Merges(classes, gone, kept, goneAt, keptAt)
  {
    forall j, k | 0 <= j < |gone| && 0 <= k < |kept|
      ensures goneAt[j] != keptAt[k]
    {
      assert keptAt[k] != goneAt[j];
    }
  }

  // Every class is in one of the two lists, at its turn; in the second exactly where it moves.
  lemma {:induction false} DivisionPartitions(classes: seq<Class>, moved: set<nat>) returns (keptAt: seq<nat>, goneAt: seq<nat>)
    ensures Merges(classes, Kept(classes, moved), Gone(classes, moved), keptAt, goneAt)
    ensures forall c {:trigger c in Kept(classes, moved)} :: c in Kept(classes, moved) ==> c.address !in moved
    ensures forall c {:trigger c in Gone(classes, moved)} :: c in Gone(classes, moved) ==> c.address in moved
  {
    hide Merges;
    if classes == [] {
      NothingMerges();
      return [], [];
    }
    var n := |classes| - 1;
    var before := classes[..n];
    assert classes == before + [classes[n]];
    var kept, gone := Kept(before, moved), Gone(before, moved);
    keptAt, goneAt := DivisionPartitions(before, moved);
    if classes[n].address in moved {
      MergesEitherWay(before, kept, gone, keptAt, goneAt);
      MergesMore(before, gone, kept, goneAt, keptAt, classes[n]);
      goneAt := goneAt + [n];
      MergesEitherWay(classes, gone + [classes[n]], kept, goneAt, keptAt);
      assert Kept(classes, moved) == kept && Gone(classes, moved) == gone + [classes[n]];
    } else {
      MergesMore(before, kept, gone, keptAt, goneAt, classes[n]);
      keptAt := keptAt + [n];
      assert Gone(classes, moved) == gone && Kept(classes, moved) == kept + [classes[n]];
    }
  }

  // What moves is listed, in order, after what the lists had: each class's address and then its metaclass in the static list,
  // its address alone in the other. The tables and the categories stay.
  lemma DivisionLists(image: Image, moved: set<nat>) returns (at: seq<nat>)
    ensures Places(image.classes, moved, at)
    ensures var r := Divided(image, moved);
            && r.categories == image.categories && r.clsrolistSuperclass == image.clsrolistSuperclass
            && image.staticClasses <= r.staticClasses && |r.staticClasses| == |image.staticClasses| + 2 * |at|
            && image.listedClasses <= r.listedClasses && |r.listedClasses| == |image.listedClasses| + |at|
            && (forall k :: 0 <= k < |at| ==>
                  && r.staticClasses[|image.staticClasses| + 2 * k] == image.classes[at[k]].address
                  && r.staticClasses[|image.staticClasses| + 2 * k + 1] == image.classes[at[k]].metaclass
                  && r.listedClasses[|image.listedClasses| + k] == image.classes[at[k]].address)
  {
    at := GoneAt(image.classes, moved);
    PairsAt(Gone(image.classes, moved));
  }

  // The places of the classes that move, all of them and in order.
  ghost predicate Places(classes: seq<Class>, moved: set<nat>, at: seq<nat>) {
    && (forall k :: 0 <= k < |at| ==> at[k] < |classes| && classes[at[k]].address in moved)
    && (forall j, k :: 0 <= j < k < |at| ==> at[j] < at[k])
    && (forall i :: 0 <= i < |classes| && classes[i].address in moved ==> i in at)
  }

  lemma PlacesMore(before: seq<Class>, c: Class, moved: set<nat>, at: seq<nat>)
    requires Places(before, moved, at)
    ensures Places(before + [c], moved, if c.address in moved then at + [|before|] else at)
  {
    var all, more := before + [c], if c.address in moved then at + [|before|] else at;
    forall i | 0 <= i < |all| && all[i].address in moved ensures i in more {
      if i < |before| {
        assert i in at;
      } else {
        assert more[|at|] == i;
      }
    }
  }

  ghost predicate StoodAt(classes: seq<Class>, gone: seq<Class>, at: seq<nat>) {
    |gone| == |at| && forall k :: 0 <= k < |at| ==> at[k] < |classes| && gone[k] == classes[at[k]]
  }

  lemma StoodMore(before: seq<Class>, c: Class, gone: seq<Class>, at: seq<nat>)
    requires StoodAt(before, gone, at)
    ensures StoodAt(before + [c], gone, at) && StoodAt(before + [c], gone + [c], at + [|before|])
  {
  }

  lemma {:induction false} GoneAt(classes: seq<Class>, moved: set<nat>) returns (at: seq<nat>)
    ensures Places(classes, moved, at) && StoodAt(classes, Gone(classes, moved), at)
  {
    hide Places, StoodAt, Gone;
    at := [];
    if classes == [] {
      NoneGone(moved);
    } else {
      var n := |classes| - 1;
      var before := classes[..n];
      at := GoneAt(before, moved);
      PlacesMore(before, classes[n], moved, at);
      StoodMore(before, classes[n], Gone(before, moved), at);
      GoneLast(before, classes[n], moved);
      assert before + [classes[n]] == classes;
      if classes[n].address in moved {
        at := at + [n];
      }
    }
  }

  lemma NoneGone(moved: set<nat>)
    ensures Places([], moved, []) && StoodAt([], Gone([], moved), [])
  {
  }

  lemma GoneLast(before: seq<Class>, c: Class, moved: set<nat>)
    ensures Gone(before + [c], moved) == if c.address in moved then Gone(before, moved) + [c] else Gone(before, moved)
  {
    assert (before + [c])[..|before|] == before;
  }

  lemma {:induction false} PairsAt(classes: seq<Class>)
    ensures |Pairs(classes)| == 2 * |classes|
    ensures forall k :: 0 <= k < |classes| ==>
      Pairs(classes)[2 * k] == classes[k].address && Pairs(classes)[2 * k + 1] == classes[k].metaclass
  {
    if classes != [] {
      PairsAt(classes[..|classes| - 1]);
    }
  }

  lemma NothingMerges()
    ensures Merges([], [], [], [], [])
  {
  }

  // The entry a class's address is known by is its own, or an import: what a class list names is resolved to the guest image
  // that exports it, what the other table names is not.
  ghost predicate Consistent(images: seq<Image>) {
    forall c :: Listed(images, c) ==>
      && c.address in SuperclassOf(images)
      && (SuperclassOf(images)[c.address] == c.superclass || SuperclassOf(images)[c.address].Import?)
  }

  // Every Swift class listed above one that moves, moves.
  lemma AncestorsMove(images: seq<Image>, c: Class, n: nat, above: Class)
    requires Consistent(images) && Qualifies(images, c)
    requires Listed(images, above) && above.swift && Up(SuperclassOf(images), c.superclass, n) == Some(Local(above.address))
    ensures Moves(images, above.address)
  {
    var sup := SuperclassOf(images);
    var end: nat :| end < MAX_DEPTH && Up(sup, c.superclass, end) == Some(Null);
    EndIsOne(sup, c.superclass, end, n);
    UpUp(sup, c.superclass, n, end - n);
    // An import there would have ended the chain of `c`.
    assert Up(sup, sup[above.address], end - n - 1) == Some(Null);
    assert !sup[above.address].Import?;
    assert Up(sup, Local(above.address), end - n) == Up(sup, above.superclass, end - n - 1);
    assert Qualifies(images, above);
  }

  // After a split, nothing that stays names a class that moved.
  lemma NothingPointsAtMoved(images: seq<Image>, moved: set<nat>, i: nat, p: Pointer)
    requires AreMoved(images, moved) && !Blocked(images) && i < |images| && p.Local?
    requires p in images[i].categories || exists c :: c in Divided(images[i], moved).classes && c.superclass == p
    ensures p.host !in moved
  {
    assert !BlockedIn(images, images[i]);
    var keptAt, goneAt := DivisionPartitions(images[i].classes, moved);
    if p !in images[i].categories {
      var c :| c in Divided(images[i], moved).classes && c.superclass == p;
      assert c in images[i].classes;
    }
  }
}
