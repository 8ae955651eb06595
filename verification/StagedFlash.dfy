/**
 From the combined UF2 file to B's flash: the whole chain, from the emitted blocks in any
 order to what a successful flashing command leaves.
 */
module StagedFlash {
  import opened Bytes
  import opened FlashStream
  import opened FlashB
  import opened CombineUf2

  /**
   A's flash was loaded with the combined file's blocks in any order. Then the flashing command
   finds the header, and if it reports success B's flash is the padded image, except exactly
   when the last attempt lost a block of a full second chunk; nothing above the image's own
   64 KB chunks has changed.
   */
  method FlashFromCombined(f: Flasher, xip: seq<byte>, stageAddr: int, ghost bin: seq<byte>, ghost before: Memory,
                           ghost order: seq<Block>, ghost flash: seq<Block>, ghost aBlocks: seq<Block>)
    returns (r: Outcome, ghost start: seq<byte>, ghost tries: int)
    requires f.Valid() && f.pending == [] && bin != [] && Padded(f.nor.cells, PaddedImage(bin))
    requires Stages(flash, aBlocks, PaddedImage(bin)) && B_SLOT + 8 + |PaddedImage(bin)| <= USABLE_TOP
    requires (forall b :: b in order <==> b in flash) && Maps(xip, Loaded(before, order))
    modifies f, f.driver`selectCache, f.driver`cswCache, f.driver.target, f.nor
    ensures f.Valid() && f.pending == [] && r != BadHeader
    ensures r.Flashed? ==> Padded(start, PaddedImage(bin)) && (tries == 0 ==> start == old(f.nor.cells))
    ensures r.Flashed? ==> (Holds(f.nor.cells, PaddedImage(bin)) <==> !LosesInImage(start, PaddedImage(bin)))
    ensures r.Flashed? && NeverLoses(PaddedImage(bin)) ==> Holds(f.nor.cells, PaddedImage(bin))
    ensures SameOutside(old(f.nor.cells), f.nor.cells, 0, Top(PaddedImage(bin)))
  {
    ghost var image := PaddedImage(bin);
    assert image != [];
    hide Padded, Stages, Loaded, GoodHeader, Staged, Holds, LosesInImage, NeverLoses, SameOutside, Maps, PaddedImage, StagedBytes, CodeDeliverable, Fetch;
    AnyOrderStages(before, order, flash, aBlocks, image, xip);
    r, start, tries := FlashBApp(f, xip, stageAddr);
  }
}
