/** count_pt after load_elf: when the memory use that is reported for a program is the number of its
    pages that the hardware translates. */
module ElfCount {
  import opened Bytes
  import opened Sv39
  import opened AddressSpace
  import opened CountPt
  import opened ElfImage

  /** Header i is the first one that maps page vpn. */
  predicate FirstMaps(phs: seq<Phdr>, i: nat, vpn: nat) {
    i < |phs| && Maps(phs[i], vpn) && !ImageMaps(phs[..i], vpn)
  }

  lemma {:induction false} FirstGivesFlags(phs: seq<Phdr>, i: nat, vpn: nat)
    requires FirstMaps(phs, i, vpn)
    ensures ImageMaps(phs, vpn) && ImageFlags(phs, vpn) == SegmentFlags(phs[i])
    decreases |phs|
  {
    hide Maps, SegmentFlags;
    if i < |phs| - 1 {
      var shorter := phs[..|phs| - 1];
      assert shorter[..i] == phs[..i];
      FirstGivesFlags(shorter, i, vpn);
    }
  }

  lemma {:induction false} SomeIsFirst(phs: seq<Phdr>, vpn: nat) returns (i: nat)
    requires ImageMaps(phs, vpn)
    ensures FirstMaps(phs, i, vpn)
    decreases |phs|
  {
    hide Maps;
    var shorter := phs[..|phs| - 1];
    if ImageMaps(shorter, vpn) {
      i := SomeIsFirst(shorter, vpn);
      assert shorter[..i] == phs[..i];
    } else {
      i := |phs| - 1;
      assert shorter + [phs[i]] == phs;
      ImageMapsMore(shorter, phs[i], vpn);
    }
  }

  /** PF_R, or PF_X without PF_W. */
  predicate GoodPermissions(ph: Phdr) {
    Digit(ph.flags, 2) || (Digit(ph.flags, 0) && !Digit(ph.flags, 1))
  }

  /** For a program loaded into an empty table, count_pt(pt, VM_U | VM_A) is the number of pages the
      hardware translates exactly when every header that is the first to map some page has PF_R, or
      PF_X without PF_W. load_elf does not check that. */
  lemma LoadedIsTranslated(s: State, root: nat, elf: seq<byte>, phs: seq<Phdr>)
    requires Inv(s, root) && Loaded(map[], ViewOf(s.mem, root), elf, phs)
    ensures CountTable(s.mem, root, USER_ACCESSED)
            == |set vpn: nat | vpn < VPNS && Translates(s.mem, root, vpn, USER_ACCESSED)|
            <==> forall i: nat, vpn: nat :: FirstMaps(phs, i, vpn) ==> GoodPermissions(phs[i])
  {
    hide Inv, ViewOf, CountTable, Translates, ImageMaps, ImageFlags, FirstMaps, ImageByte;
    CountIsTranslated(s, root, USER_ACCESSED);
    var v := ViewOf(s.mem, root);
    LoadedPages(v, elf, phs);
    forall i: nat, vpn: nat | FirstMaps(phs, i, vpn)
      ensures i < |phs| && vpn in PagesWith(v, USER_ACCESSED)
      ensures Translatable(v[vpn].flags) <==> GoodPermissions(phs[i])
    {
      FirstIsPage(v, elf, phs, i, vpn);
    }
    forall vpn | vpn in PagesWith(v, USER_ACCESSED)
      ensures exists i: nat :: FirstMaps(phs, i, vpn)
    {
      var i := SomeIsFirst(phs, vpn);
    }
  }

  lemma LoadedPages(v: View, elf: seq<byte>, phs: seq<Phdr>)
    requires Loaded(map[], v, elf, phs)
    ensures forall vpn: nat :: vpn in v ==> ImageMaps(phs, vpn) && v[vpn].flags == ImageFlags(phs, vpn)
    ensures forall vpn: nat :: ImageMaps(phs, vpn) ==> vpn in v
  {
    hide ImageMaps, ImageFlags, ImageByte;
  }

  lemma FirstIsPage(v: View, elf: seq<byte>, phs: seq<Phdr>, i: nat, vpn: nat)
    requires Loaded(map[], v, elf, phs) && FirstMaps(phs, i, vpn)
    ensures i < |phs| && vpn in PagesWith(v, USER_ACCESSED)
    ensures Translatable(v[vpn].flags) <==> GoodPermissions(phs[i])
  {
    hide ImageMaps, ImageFlags, ImageByte, Digit, Maps;
    LoadedPages(v, elf, phs);
    FirstGivesFlags(phs, i, vpn);
  }
}
