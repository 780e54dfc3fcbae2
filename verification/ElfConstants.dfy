/** Names from the System V gABI, chapter 4 "Object Files", and its GNU extensions. */
module ElfConstants {
  const SHN_UNDEF := 0
  const SHN_LORESERVE := 0xff00
  const PN_XNUM := 0xffff
  const EV_CURRENT := 1
  const EI_CLASS := 4
  const EI_DATA := 5
  const EI_VERSION := 6

  const SHT_NULL := 0
  const SHT_SYMTAB := 2
  const SHT_RELA := 4
  const SHT_HASH := 5
  const SHT_DYNAMIC := 6
  const SHT_NOBITS := 8
  const SHT_REL := 9
  const SHT_DYNSYM := 11
  const SHT_SYMTAB_SHNDX := 18
  const SHT_GNU_VERDEF := 0x6fff_fffd
  const SHT_GNU_VERNEED := 0x6fff_fffe
  const SHT_GNU_VERSYM := 0x6fff_ffff
}
