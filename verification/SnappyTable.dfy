/** The decoder's lookup table, as constants, and what its entries mean. */
module SnappyTable {
  import opened Bytes
  import opened SnappyFormat

  // Bits 0..7 of an entry hold a length, 8..10 the high bits of a copy's offset, 11..13 the bytes after the tag.

  /** The entry that the tag's own bits call for. */
  function Entry(c: Byte): int {
    0x800 * ExtraBytes(c) + 0x100 * TagOffset(c) + TagLength(c)
  }

  function Table0(c: Byte): int {
    match c
    case 0 => 0x0001 case 1 => 0x0804 case 2 => 0x1001 case 3 => 0x2001
    case 4 => 0x0002 case 5 => 0x0805 case 6 => 0x1002 case 7 => 0x2002
    case 8 => 0x0003 case 9 => 0x0806 case 10 => 0x1003 case 11 => 0x2003
    case 12 => 0x0004 case 13 => 0x0807 case 14 => 0x1004 case 15 => 0x2004
    case 16 => 0x0005 case 17 => 0x0808 case 18 => 0x1005 case 19 => 0x2005
    case 20 => 0x0006 case 21 => 0x0809 case 22 => 0x1006 case 23 => 0x2006
    case 24 => 0x0007 case 25 => 0x080a case 26 => 0x1007 case 27 => 0x2007
    case 28 => 0x0008 case 29 => 0x080b case 30 => 0x1008 case 31 => 0x2008
    case _ => 0
  }

  lemma Meaning0(c: Byte)
    requires 0 <= c < 32
    ensures Table0(c) == Entry(c)
  {
  }

  function Table1(c: Byte): int {
    match c
    case 32 => 0x0009 case 33 => 0x0904 case 34 => 0x1009 case 35 => 0x2009
    case 36 => 0x000a case 37 => 0x0905 case 38 => 0x100a case 39 => 0x200a
    case 40 => 0x000b case 41 => 0x0906 case 42 => 0x100b case 43 => 0x200b
    case 44 => 0x000c case 45 => 0x0907 case 46 => 0x100c case 47 => 0x200c
    case 48 => 0x000d case 49 => 0x0908 case 50 => 0x100d case 51 => 0x200d
    case 52 => 0x000e case 53 => 0x0909 case 54 => 0x100e case 55 => 0x200e
    case 56 => 0x000f case 57 => 0x090a case 58 => 0x100f case 59 => 0x200f
    case 60 => 0x0010 case 61 => 0x090b case 62 => 0x1010 case 63 => 0x2010
    case _ => 0
  }

  lemma Meaning1(c: Byte)
    requires 32 <= c < 64
    ensures Table1(c) == Entry(c)
  {
  }

  function Table2(c: Byte): int {
    match c
    case 64 => 0x0011 case 65 => 0x0a04 case 66 => 0x1011 case 67 => 0x2011
    case 68 => 0x0012 case 69 => 0x0a05 case 70 => 0x1012 case 71 => 0x2012
    case 72 => 0x0013 case 73 => 0x0a06 case 74 => 0x1013 case 75 => 0x2013
    case 76 => 0x0014 case 77 => 0x0a07 case 78 => 0x1014 case 79 => 0x2014
    case 80 => 0x0015 case 81 => 0x0a08 case 82 => 0x1015 case 83 => 0x2015
    case 84 => 0x0016 case 85 => 0x0a09 case 86 => 0x1016 case 87 => 0x2016
    case 88 => 0x0017 case 89 => 0x0a0a case 90 => 0x1017 case 91 => 0x2017
    case 92 => 0x0018 case 93 => 0x0a0b case 94 => 0x1018 case 95 => 0x2018
    case _ => 0
  }

  lemma Meaning2(c: Byte)
    requires 64 <= c < 96
    ensures Table2(c) == Entry(c)
  {
  }

  function Table3(c: Byte): int {
    match c
    case 96 => 0x0019 case 97 => 0x0b04 case 98 => 0x1019 case 99 => 0x2019
    case 100 => 0x001a case 101 => 0x0b05 case 102 => 0x101a case 103 => 0x201a
    case 104 => 0x001b case 105 => 0x0b06 case 106 => 0x101b case 107 => 0x201b
    case 108 => 0x001c case 109 => 0x0b07 case 110 => 0x101c case 111 => 0x201c
    case 112 => 0x001d case 113 => 0x0b08 case 114 => 0x101d case 115 => 0x201d
    case 116 => 0x001e case 117 => 0x0b09 case 118 => 0x101e case 119 => 0x201e
    case 120 => 0x001f case 121 => 0x0b0a case 122 => 0x101f case 123 => 0x201f
    case 124 => 0x0020 case 125 => 0x0b0b case 126 => 0x1020 case 127 => 0x2020
    case _ => 0
  }

  lemma Meaning3(c: Byte)
    requires 96 <= c < 128
    ensures Table3(c) == Entry(c)
  {
  }

  function Table4(c: Byte): int {
    match c
    case 128 => 0x0021 case 129 => 0x0c04 case 130 => 0x1021 case 131 => 0x2021
    case 132 => 0x0022 case 133 => 0x0c05 case 134 => 0x1022 case 135 => 0x2022
    case 136 => 0x0023 case 137 => 0x0c06 case 138 => 0x1023 case 139 => 0x2023
    case 140 => 0x0024 case 141 => 0x0c07 case 142 => 0x1024 case 143 => 0x2024
    case 144 => 0x0025 case 145 => 0x0c08 case 146 => 0x1025 case 147 => 0x2025
    case 148 => 0x0026 case 149 => 0x0c09 case 150 => 0x1026 case 151 => 0x2026
    case 152 => 0x0027 case 153 => 0x0c0a case 154 => 0x1027 case 155 => 0x2027
    case 156 => 0x0028 case 157 => 0x0c0b case 158 => 0x1028 case 159 => 0x2028
    case _ => 0
  }

  lemma Meaning4(c: Byte)
    requires 128 <= c < 160
    ensures Table4(c) == Entry(c)
  {
  }

  function Table5(c: Byte): int {
    match c
    case 160 => 0x0029 case 161 => 0x0d04 case 162 => 0x1029 case 163 => 0x2029
    case 164 => 0x002a case 165 => 0x0d05 case 166 => 0x102a case 167 => 0x202a
    case 168 => 0x002b case 169 => 0x0d06 case 170 => 0x102b case 171 => 0x202b
    case 172 => 0x002c case 173 => 0x0d07 case 174 => 0x102c case 175 => 0x202c
    case 176 => 0x002d case 177 => 0x0d08 case 178 => 0x102d case 179 => 0x202d
    case 180 => 0x002e case 181 => 0x0d09 case 182 => 0x102e case 183 => 0x202e
    case 184 => 0x002f case 185 => 0x0d0a case 186 => 0x102f case 187 => 0x202f
    case 188 => 0x0030 case 189 => 0x0d0b case 190 => 0x1030 case 191 => 0x2030
    case _ => 0
  }

  lemma Meaning5(c: Byte)
    requires 160 <= c < 192
    ensures Table5(c) == Entry(c)
  {
  }

  function Table6(c: Byte): int {
    match c
    case 192 => 0x0031 case 193 => 0x0e04 case 194 => 0x1031 case 195 => 0x2031
    case 196 => 0x0032 case 197 => 0x0e05 case 198 => 0x1032 case 199 => 0x2032
    case 200 => 0x0033 case 201 => 0x0e06 case 202 => 0x1033 case 203 => 0x2033
    case 204 => 0x0034 case 205 => 0x0e07 case 206 => 0x1034 case 207 => 0x2034
    case 208 => 0x0035 case 209 => 0x0e08 case 210 => 0x1035 case 211 => 0x2035
    case 212 => 0x0036 case 213 => 0x0e09 case 214 => 0x1036 case 215 => 0x2036
    case 216 => 0x0037 case 217 => 0x0e0a case 218 => 0x1037 case 219 => 0x2037
    case 220 => 0x0038 case 221 => 0x0e0b case 222 => 0x1038 case 223 => 0x2038
    case _ => 0
  }

  lemma Meaning6(c: Byte)
    requires 192 <= c < 224
    ensures Table6(c) == Entry(c)
  {
  }

  function Table7(c: Byte): int {
    match c
    case 224 => 0x0039 case 225 => 0x0f04 case 226 => 0x1039 case 227 => 0x2039
    case 228 => 0x003a case 229 => 0x0f05 case 230 => 0x103a case 231 => 0x203a
    case 232 => 0x003b case 233 => 0x0f06 case 234 => 0x103b case 235 => 0x203b
    case 236 => 0x003c case 237 => 0x0f07 case 238 => 0x103c case 239 => 0x203c
    case 240 => 0x0801 case 241 => 0x0f08 case 242 => 0x103d case 243 => 0x203d
    case 244 => 0x1001 case 245 => 0x0f09 case 246 => 0x103e case 247 => 0x203e
    case 248 => 0x1801 case 249 => 0x0f0a case 250 => 0x103f case 251 => 0x203f
    case 252 => 0x2001 case 253 => 0x0f0b case 254 => 0x1040 case 255 => 0x2040
    case _ => 0
  }

  lemma Meaning7(c: Byte)
    requires 224 <= c < 256
    ensures Table7(c) == Entry(c)
  {
  }

  /** char_table[c] */
  function CharTable(c: Byte): int {
    if c < 128 then if c < 64 then if c < 32 then Table0(c) else Table1(c) else if c < 96 then Table2(c) else Table3(c)
    else if c < 192 then if c < 160 then Table4(c) else Table5(c) else if c < 224 then Table6(c) else Table7(c)
  }

  lemma CharTableMeaning(c: Byte)
    ensures CharTable(c) == Entry(c)
  {
    hide Table0, Table1, Table2, Table3, Table4, Table5, Table6, Table7, Entry;
    if 0 <= c < 32 { Meaning0(c); }
    if 32 <= c < 64 { Meaning1(c); }
    if 64 <= c < 96 { Meaning2(c); }
    if 96 <= c < 128 { Meaning3(c); }
    if 128 <= c < 160 { Meaning4(c); }
    if 160 <= c < 192 { Meaning5(c); }
    if 192 <= c < 224 { Meaning6(c); }
    if 224 <= c < 256 { Meaning7(c); }
  }
}
