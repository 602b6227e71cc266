/** DPS_FILENO: which of the numbered files a key belongs to. */
module FileNumber {
  import opened Bits

  const DPS_BASE_MASK := 0xFFFF

  function FileNo(key: nat, files: nat): (num: nat)
    requires files > 0
    ensures num < files
  {
    key / (DPS_BASE_MASK + 1) % (DPS_BASE_MASK + 1) % files
  }

  /** Only the high half of a 32-bit key counts: its remainder by the number of files. */
  lemma FileOfHighHalf(key: nat, high: nat, low: nat, files: nat, laps: nat, num: nat)
    requires key == 0x1_0000 * high + low && high < 0x1_0000 && low < 0x1_0000
    requires high == files * laps + num && num < files
    ensures FileNo(key, files) == num
  {
    assert key / 0x1_0000 % 0x1_0000 == high;
    DigitsUnique(files, laps, num, high / files, high % files);
  }
}
