/** Little-endian files as byte strings (src/lib/fcitx-utils/utils.c:828-847). */
module Binary {

  /** fcitx_utils_write_uint32: four bytes, the lowest first. */
  function U32(n: nat): (b: string)
    ensures |b| == 4
  {
    [(n % 256) as char, (n / 256 % 256) as char, (n / 65536 % 256) as char, (n / 16777216 % 256) as char]
  }

  /** fcitx_utils_read_uint32 at position p. */
  function U32At(file: string, p: nat): nat
    requires p + 4 <= |file|
  {
    file[p] as nat + 256 * file[p + 1] as nat + 65536 * file[p + 2] as nat + 16777216 * file[p + 3] as nat
  }

  lemma Digits(n: nat)
    requires n < 0x1_0000_0000
    ensures n == n % 256 + 256 * (n / 256 % 256) + 65536 * (n / 65536 % 256) + 16777216 * (n / 16777216 % 256)
  {
    assert n / 65536 == n / 256 / 256 && n / 16777216 == n / 256 / 256 / 256;
  }

  /** A number written is the number read. */
  lemma U32RoundTrip(before: string, n: nat, behind: string)
    requires n < 0x1_0000_0000
    ensures U32At(before + U32(n) + behind, |before|) == n
  {
    Digits(n);
    var file := before + U32(n) + behind;
    assert forall i :: 0 <= i < 4 ==> file[|before| + i] == U32(n)[i];
  }

  /** The lowest byte is the first. */
  lemma LowestFirst(n: nat)
    requires n < 0x1_0000_0000
    ensures forall i :: 0 <= i < 4 ==> U32(n)[i] as int < 256
    ensures var b := U32(n);
      n == b[0] as int + 0x100 * b[1] as int + 0x1_0000 * b[2] as int + 0x100_0000 * b[3] as int
  {
    Digits(n);
  }
}
