/**
 * The tables of the cipher, by rows of sixteen entries, and multiplication in
 * the field of 256 elements (section 4.2 of FIPS 197) by logarithms.
 */
module AESTables {
  import opened Bits

  /** Logarithms to the base 3. */
  function Log(b: Byte): Byte {
    var l := b & 15;
    match b >> 4
    case 0 => Log0(l)
    case 1 => Log1(l)
    case 2 => Log2(l)
    case 3 => Log3(l)
    case 4 => Log4(l)
    case 5 => Log5(l)
    case 6 => Log6(l)
    case 7 => Log7(l)
    case 8 => Log8(l)
    case 9 => Log9(l)
    case 10 => LogA(l)
    case 11 => LogB(l)
    case 12 => LogC(l)
    case 13 => LogD(l)
    case 14 => LogE(l)
    case _ => LogF(l)
  }

  function Log0(l: Byte): Byte {
    match l
    case 0 => 0 case 1 => 0 case 2 => 25 case 3 => 1 case 4 => 50 case 5 => 2 case 6 => 26 case 7 => 198
    case 8 => 75 case 9 => 199 case 10 => 27 case 11 => 104 case 12 => 51 case 13 => 238 case 14 => 223 case _ => 3
  }

  function Log1(l: Byte): Byte {
    match l
    case 0 => 100 case 1 => 4 case 2 => 224 case 3 => 14 case 4 => 52 case 5 => 141 case 6 => 129 case 7 => 239
    case 8 => 76 case 9 => 113 case 10 => 8 case 11 => 200 case 12 => 248 case 13 => 105 case 14 => 28 case _ => 193
  }

  function Log2(l: Byte): Byte {
    match l
    case 0 => 125 case 1 => 194 case 2 => 29 case 3 => 181 case 4 => 249 case 5 => 185 case 6 => 39 case 7 => 106
    case 8 => 77 case 9 => 228 case 10 => 166 case 11 => 114 case 12 => 154 case 13 => 201 case 14 => 9 case _ => 120
  }

  function Log3(l: Byte): Byte {
    match l
    case 0 => 101 case 1 => 47 case 2 => 138 case 3 => 5 case 4 => 33 case 5 => 15 case 6 => 225 case 7 => 36
    case 8 => 18 case 9 => 240 case 10 => 130 case 11 => 69 case 12 => 53 case 13 => 147 case 14 => 218 case _ => 142
  }

  function Log4(l: Byte): Byte {
    match l
    case 0 => 150 case 1 => 143 case 2 => 219 case 3 => 189 case 4 => 54 case 5 => 208 case 6 => 206 case 7 => 148
    case 8 => 19 case 9 => 92 case 10 => 210 case 11 => 241 case 12 => 64 case 13 => 70 case 14 => 131 case _ => 56
  }

  function Log5(l: Byte): Byte {
    match l
    case 0 => 102 case 1 => 221 case 2 => 253 case 3 => 48 case 4 => 191 case 5 => 6 case 6 => 139 case 7 => 98
    case 8 => 179 case 9 => 37 case 10 => 226 case 11 => 152 case 12 => 34 case 13 => 136 case 14 => 145 case _ => 16
  }

  function Log6(l: Byte): Byte {
    match l
    case 0 => 126 case 1 => 110 case 2 => 72 case 3 => 195 case 4 => 163 case 5 => 182 case 6 => 30 case 7 => 66
    case 8 => 58 case 9 => 107 case 10 => 40 case 11 => 84 case 12 => 250 case 13 => 133 case 14 => 61 case _ => 186
  }

  function Log7(l: Byte): Byte {
    match l
    case 0 => 43 case 1 => 121 case 2 => 10 case 3 => 21 case 4 => 155 case 5 => 159 case 6 => 94 case 7 => 202
    case 8 => 78 case 9 => 212 case 10 => 172 case 11 => 229 case 12 => 243 case 13 => 115 case 14 => 167 case _ => 87
  }

  function Log8(l: Byte): Byte {
    match l
    case 0 => 175 case 1 => 88 case 2 => 168 case 3 => 80 case 4 => 244 case 5 => 234 case 6 => 214 case 7 => 116
    case 8 => 79 case 9 => 174 case 10 => 233 case 11 => 213 case 12 => 231 case 13 => 230 case 14 => 173 case _ => 232
  }

  function Log9(l: Byte): Byte {
    match l
    case 0 => 44 case 1 => 215 case 2 => 117 case 3 => 122 case 4 => 235 case 5 => 22 case 6 => 11 case 7 => 245
    case 8 => 89 case 9 => 203 case 10 => 95 case 11 => 176 case 12 => 156 case 13 => 169 case 14 => 81 case _ => 160
  }

  function LogA(l: Byte): Byte {
    match l
    case 0 => 127 case 1 => 12 case 2 => 246 case 3 => 111 case 4 => 23 case 5 => 196 case 6 => 73 case 7 => 236
    case 8 => 216 case 9 => 67 case 10 => 31 case 11 => 45 case 12 => 164 case 13 => 118 case 14 => 123 case _ => 183
  }

  function LogB(l: Byte): Byte {
    match l
    case 0 => 204 case 1 => 187 case 2 => 62 case 3 => 90 case 4 => 251 case 5 => 96 case 6 => 177 case 7 => 134
    case 8 => 59 case 9 => 82 case 10 => 161 case 11 => 108 case 12 => 170 case 13 => 85 case 14 => 41 case _ => 157
  }

  function LogC(l: Byte): Byte {
    match l
    case 0 => 151 case 1 => 178 case 2 => 135 case 3 => 144 case 4 => 97 case 5 => 190 case 6 => 220 case 7 => 252
    case 8 => 188 case 9 => 149 case 10 => 207 case 11 => 205 case 12 => 55 case 13 => 63 case 14 => 91 case _ => 209
  }

  function LogD(l: Byte): Byte {
    match l
    case 0 => 83 case 1 => 57 case 2 => 132 case 3 => 60 case 4 => 65 case 5 => 162 case 6 => 109 case 7 => 71
    case 8 => 20 case 9 => 42 case 10 => 158 case 11 => 93 case 12 => 86 case 13 => 242 case 14 => 211 case _ => 171
  }

  function LogE(l: Byte): Byte {
    match l
    case 0 => 68 case 1 => 17 case 2 => 146 case 3 => 217 case 4 => 35 case 5 => 32 case 6 => 46 case 7 => 137
    case 8 => 180 case 9 => 124 case 10 => 184 case 11 => 38 case 12 => 119 case 13 => 153 case 14 => 227 case _ => 165
  }

  function LogF(l: Byte): Byte {
    match l
    case 0 => 103 case 1 => 74 case 2 => 237 case 3 => 222 case 4 => 197 case 5 => 49 case 6 => 254 case 7 => 24
    case 8 => 13 case 9 => 99 case 10 => 140 case 11 => 128 case 12 => 192 case 13 => 247 case 14 => 112 case _ => 7
  }

  /** Powers of 3. */
  function Alog(b: Byte): Byte {
    var l := b & 15;
    match b >> 4
    case 0 => Alog0(l)
    case 1 => Alog1(l)
    case 2 => Alog2(l)
    case 3 => Alog3(l)
    case 4 => Alog4(l)
    case 5 => Alog5(l)
    case 6 => Alog6(l)
    case 7 => Alog7(l)
    case 8 => Alog8(l)
    case 9 => Alog9(l)
    case 10 => AlogA(l)
    case 11 => AlogB(l)
    case 12 => AlogC(l)
    case 13 => AlogD(l)
    case 14 => AlogE(l)
    case _ => AlogF(l)
  }

  function Alog0(l: Byte): Byte {
    match l
    case 0 => 1 case 1 => 3 case 2 => 5 case 3 => 15 case 4 => 17 case 5 => 51 case 6 => 85 case 7 => 255
    case 8 => 26 case 9 => 46 case 10 => 114 case 11 => 150 case 12 => 161 case 13 => 248 case 14 => 19 case _ => 53
  }

  function Alog1(l: Byte): Byte {
    match l
    case 0 => 95 case 1 => 225 case 2 => 56 case 3 => 72 case 4 => 216 case 5 => 115 case 6 => 149 case 7 => 164
    case 8 => 247 case 9 => 2 case 10 => 6 case 11 => 10 case 12 => 30 case 13 => 34 case 14 => 102 case _ => 170
  }

  function Alog2(l: Byte): Byte {
    match l
    case 0 => 229 case 1 => 52 case 2 => 92 case 3 => 228 case 4 => 55 case 5 => 89 case 6 => 235 case 7 => 38
    case 8 => 106 case 9 => 190 case 10 => 217 case 11 => 112 case 12 => 144 case 13 => 171 case 14 => 230 case _ => 49
  }

  function Alog3(l: Byte): Byte {
    match l
    case 0 => 83 case 1 => 245 case 2 => 4 case 3 => 12 case 4 => 20 case 5 => 60 case 6 => 68 case 7 => 204
    case 8 => 79 case 9 => 209 case 10 => 104 case 11 => 184 case 12 => 211 case 13 => 110 case 14 => 178 case _ => 205
  }

  function Alog4(l: Byte): Byte {
    match l
    case 0 => 76 case 1 => 212 case 2 => 103 case 3 => 169 case 4 => 224 case 5 => 59 case 6 => 77 case 7 => 215
    case 8 => 98 case 9 => 166 case 10 => 241 case 11 => 8 case 12 => 24 case 13 => 40 case 14 => 120 case _ => 136
  }

  function Alog5(l: Byte): Byte {
    match l
    case 0 => 131 case 1 => 158 case 2 => 185 case 3 => 208 case 4 => 107 case 5 => 189 case 6 => 220 case 7 => 127
    case 8 => 129 case 9 => 152 case 10 => 179 case 11 => 206 case 12 => 73 case 13 => 219 case 14 => 118 case _ => 154
  }

  function Alog6(l: Byte): Byte {
    match l
    case 0 => 181 case 1 => 196 case 2 => 87 case 3 => 249 case 4 => 16 case 5 => 48 case 6 => 80 case 7 => 240
    case 8 => 11 case 9 => 29 case 10 => 39 case 11 => 105 case 12 => 187 case 13 => 214 case 14 => 97 case _ => 163
  }

  function Alog7(l: Byte): Byte {
    match l
    case 0 => 254 case 1 => 25 case 2 => 43 case 3 => 125 case 4 => 135 case 5 => 146 case 6 => 173 case 7 => 236
    case 8 => 47 case 9 => 113 case 10 => 147 case 11 => 174 case 12 => 233 case 13 => 32 case 14 => 96 case _ => 160
  }

  function Alog8(l: Byte): Byte {
    match l
    case 0 => 251 case 1 => 22 case 2 => 58 case 3 => 78 case 4 => 210 case 5 => 109 case 6 => 183 case 7 => 194
    case 8 => 93 case 9 => 231 case 10 => 50 case 11 => 86 case 12 => 250 case 13 => 21 case 14 => 63 case _ => 65
  }

  function Alog9(l: Byte): Byte {
    match l
    case 0 => 195 case 1 => 94 case 2 => 226 case 3 => 61 case 4 => 71 case 5 => 201 case 6 => 64 case 7 => 192
    case 8 => 91 case 9 => 237 case 10 => 44 case 11 => 116 case 12 => 156 case 13 => 191 case 14 => 218 case _ => 117
  }

  function AlogA(l: Byte): Byte {
    match l
    case 0 => 159 case 1 => 186 case 2 => 213 case 3 => 100 case 4 => 172 case 5 => 239 case 6 => 42 case 7 => 126
    case 8 => 130 case 9 => 157 case 10 => 188 case 11 => 223 case 12 => 122 case 13 => 142 case 14 => 137 case _ => 128
  }

  function AlogB(l: Byte): Byte {
    match l
    case 0 => 155 case 1 => 182 case 2 => 193 case 3 => 88 case 4 => 232 case 5 => 35 case 6 => 101 case 7 => 175
    case 8 => 234 case 9 => 37 case 10 => 111 case 11 => 177 case 12 => 200 case 13 => 67 case 14 => 197 case _ => 84
  }

  function AlogC(l: Byte): Byte {
    match l
    case 0 => 252 case 1 => 31 case 2 => 33 case 3 => 99 case 4 => 165 case 5 => 244 case 6 => 7 case 7 => 9
    case 8 => 27 case 9 => 45 case 10 => 119 case 11 => 153 case 12 => 176 case 13 => 203 case 14 => 70 case _ => 202
  }

  function AlogD(l: Byte): Byte {
    match l
    case 0 => 69 case 1 => 207 case 2 => 74 case 3 => 222 case 4 => 121 case 5 => 139 case 6 => 134 case 7 => 145
    case 8 => 168 case 9 => 227 case 10 => 62 case 11 => 66 case 12 => 198 case 13 => 81 case 14 => 243 case _ => 14
  }

  function AlogE(l: Byte): Byte {
    match l
    case 0 => 18 case 1 => 54 case 2 => 90 case 3 => 238 case 4 => 41 case 5 => 123 case 6 => 141 case 7 => 140
    case 8 => 143 case 9 => 138 case 10 => 133 case 11 => 148 case 12 => 167 case 13 => 242 case 14 => 13 case _ => 23
  }

  function AlogF(l: Byte): Byte {
    match l
    case 0 => 57 case 1 => 75 case 2 => 221 case 3 => 124 case 4 => 132 case 5 => 151 case 6 => 162 case 7 => 253
    case 8 => 28 case 9 => 36 case 10 => 108 case 11 => 180 case 12 => 199 case 13 => 82 case 14 => 246 case _ => 1
  }

  /** The substitution of the cipher. */
  function S(b: Byte): Byte {
    var l := b & 15;
    match b >> 4
    case 0 => S0(l)
    case 1 => S1(l)
    case 2 => S2(l)
    case 3 => S3(l)
    case 4 => S4(l)
    case 5 => S5(l)
    case 6 => S6(l)
    case 7 => S7(l)
    case 8 => S8(l)
    case 9 => S9(l)
    case 10 => SA(l)
    case 11 => SB(l)
    case 12 => SC(l)
    case 13 => SD(l)
    case 14 => SE(l)
    case _ => SF(l)
  }

  function S0(l: Byte): Byte {
    match l
    case 0 => 99 case 1 => 124 case 2 => 119 case 3 => 123 case 4 => 242 case 5 => 107 case 6 => 111 case 7 => 197
    case 8 => 48 case 9 => 1 case 10 => 103 case 11 => 43 case 12 => 254 case 13 => 215 case 14 => 171 case _ => 118
  }

  function S1(l: Byte): Byte {
    match l
    case 0 => 202 case 1 => 130 case 2 => 201 case 3 => 125 case 4 => 250 case 5 => 89 case 6 => 71 case 7 => 240
    case 8 => 173 case 9 => 212 case 10 => 162 case 11 => 175 case 12 => 156 case 13 => 164 case 14 => 114 case _ => 192
  }

  function S2(l: Byte): Byte {
    match l
    case 0 => 183 case 1 => 253 case 2 => 147 case 3 => 38 case 4 => 54 case 5 => 63 case 6 => 247 case 7 => 204
    case 8 => 52 case 9 => 165 case 10 => 229 case 11 => 241 case 12 => 113 case 13 => 216 case 14 => 49 case _ => 21
  }

  function S3(l: Byte): Byte {
    match l
    case 0 => 4 case 1 => 199 case 2 => 35 case 3 => 195 case 4 => 24 case 5 => 150 case 6 => 5 case 7 => 154
    case 8 => 7 case 9 => 18 case 10 => 128 case 11 => 226 case 12 => 235 case 13 => 39 case 14 => 178 case _ => 117
  }

  function S4(l: Byte): Byte {
    match l
    case 0 => 9 case 1 => 131 case 2 => 44 case 3 => 26 case 4 => 27 case 5 => 110 case 6 => 90 case 7 => 160
    case 8 => 82 case 9 => 59 case 10 => 214 case 11 => 179 case 12 => 41 case 13 => 227 case 14 => 47 case _ => 132
  }

  function S5(l: Byte): Byte {
    match l
    case 0 => 83 case 1 => 209 case 2 => 0 case 3 => 237 case 4 => 32 case 5 => 252 case 6 => 177 case 7 => 91
    case 8 => 106 case 9 => 203 case 10 => 190 case 11 => 57 case 12 => 74 case 13 => 76 case 14 => 88 case _ => 207
  }

  function S6(l: Byte): Byte {
    match l
    case 0 => 208 case 1 => 239 case 2 => 170 case 3 => 251 case 4 => 67 case 5 => 77 case 6 => 51 case 7 => 133
    case 8 => 69 case 9 => 249 case 10 => 2 case 11 => 127 case 12 => 80 case 13 => 60 case 14 => 159 case _ => 168
  }

  function S7(l: Byte): Byte {
    match l
    case 0 => 81 case 1 => 163 case 2 => 64 case 3 => 143 case 4 => 146 case 5 => 157 case 6 => 56 case 7 => 245
    case 8 => 188 case 9 => 182 case 10 => 218 case 11 => 33 case 12 => 16 case 13 => 255 case 14 => 243 case _ => 210
  }

  function S8(l: Byte): Byte {
    match l
    case 0 => 205 case 1 => 12 case 2 => 19 case 3 => 236 case 4 => 95 case 5 => 151 case 6 => 68 case 7 => 23
    case 8 => 196 case 9 => 167 case 10 => 126 case 11 => 61 case 12 => 100 case 13 => 93 case 14 => 25 case _ => 115
  }

  function S9(l: Byte): Byte {
    match l
    case 0 => 96 case 1 => 129 case 2 => 79 case 3 => 220 case 4 => 34 case 5 => 42 case 6 => 144 case 7 => 136
    case 8 => 70 case 9 => 238 case 10 => 184 case 11 => 20 case 12 => 222 case 13 => 94 case 14 => 11 case _ => 219
  }

  function SA(l: Byte): Byte {
    match l
    case 0 => 224 case 1 => 50 case 2 => 58 case 3 => 10 case 4 => 73 case 5 => 6 case 6 => 36 case 7 => 92
    case 8 => 194 case 9 => 211 case 10 => 172 case 11 => 98 case 12 => 145 case 13 => 149 case 14 => 228 case _ => 121
  }

  function SB(l: Byte): Byte {
    match l
    case 0 => 231 case 1 => 200 case 2 => 55 case 3 => 109 case 4 => 141 case 5 => 213 case 6 => 78 case 7 => 169
    case 8 => 108 case 9 => 86 case 10 => 244 case 11 => 234 case 12 => 101 case 13 => 122 case 14 => 174 case _ => 8
  }

  function SC(l: Byte): Byte {
    match l
    case 0 => 186 case 1 => 120 case 2 => 37 case 3 => 46 case 4 => 28 case 5 => 166 case 6 => 180 case 7 => 198
    case 8 => 232 case 9 => 221 case 10 => 116 case 11 => 31 case 12 => 75 case 13 => 189 case 14 => 139 case _ => 138
  }

  function SD(l: Byte): Byte {
    match l
    case 0 => 112 case 1 => 62 case 2 => 181 case 3 => 102 case 4 => 72 case 5 => 3 case 6 => 246 case 7 => 14
    case 8 => 97 case 9 => 53 case 10 => 87 case 11 => 185 case 12 => 134 case 13 => 193 case 14 => 29 case _ => 158
  }

  function SE(l: Byte): Byte {
    match l
    case 0 => 225 case 1 => 248 case 2 => 152 case 3 => 17 case 4 => 105 case 5 => 217 case 6 => 142 case 7 => 148
    case 8 => 155 case 9 => 30 case 10 => 135 case 11 => 233 case 12 => 206 case 13 => 85 case 14 => 40 case _ => 223
  }

  function SF(l: Byte): Byte {
    match l
    case 0 => 140 case 1 => 161 case 2 => 137 case 3 => 13 case 4 => 191 case 5 => 230 case 6 => 66 case 7 => 104
    case 8 => 65 case 9 => 153 case 10 => 45 case 11 => 15 case 12 => 176 case 13 => 84 case 14 => 187 case _ => 22
  }

  /** The inverse substitution. */
  function Si(b: Byte): Byte {
    var l := b & 15;
    match b >> 4
    case 0 => Si0(l)
    case 1 => Si1(l)
    case 2 => Si2(l)
    case 3 => Si3(l)
    case 4 => Si4(l)
    case 5 => Si5(l)
    case 6 => Si6(l)
    case 7 => Si7(l)
    case 8 => Si8(l)
    case 9 => Si9(l)
    case 10 => SiA(l)
    case 11 => SiB(l)
    case 12 => SiC(l)
    case 13 => SiD(l)
    case 14 => SiE(l)
    case _ => SiF(l)
  }

  function Si0(l: Byte): Byte {
    match l
    case 0 => 82 case 1 => 9 case 2 => 106 case 3 => 213 case 4 => 48 case 5 => 54 case 6 => 165 case 7 => 56
    case 8 => 191 case 9 => 64 case 10 => 163 case 11 => 158 case 12 => 129 case 13 => 243 case 14 => 215 case _ => 251
  }

  function Si1(l: Byte): Byte {
    match l
    case 0 => 124 case 1 => 227 case 2 => 57 case 3 => 130 case 4 => 155 case 5 => 47 case 6 => 255 case 7 => 135
    case 8 => 52 case 9 => 142 case 10 => 67 case 11 => 68 case 12 => 196 case 13 => 222 case 14 => 233 case _ => 203
  }

  function Si2(l: Byte): Byte {
    match l
    case 0 => 84 case 1 => 123 case 2 => 148 case 3 => 50 case 4 => 166 case 5 => 194 case 6 => 35 case 7 => 61
    case 8 => 238 case 9 => 76 case 10 => 149 case 11 => 11 case 12 => 66 case 13 => 250 case 14 => 195 case _ => 78
  }

  function Si3(l: Byte): Byte {
    match l
    case 0 => 8 case 1 => 46 case 2 => 161 case 3 => 102 case 4 => 40 case 5 => 217 case 6 => 36 case 7 => 178
    case 8 => 118 case 9 => 91 case 10 => 162 case 11 => 73 case 12 => 109 case 13 => 139 case 14 => 209 case _ => 37
  }

  function Si4(l: Byte): Byte {
    match l
    case 0 => 114 case 1 => 248 case 2 => 246 case 3 => 100 case 4 => 134 case 5 => 104 case 6 => 152 case 7 => 22
    case 8 => 212 case 9 => 164 case 10 => 92 case 11 => 204 case 12 => 93 case 13 => 101 case 14 => 182 case _ => 146
  }

  function Si5(l: Byte): Byte {
    match l
    case 0 => 108 case 1 => 112 case 2 => 72 case 3 => 80 case 4 => 253 case 5 => 237 case 6 => 185 case 7 => 218
    case 8 => 94 case 9 => 21 case 10 => 70 case 11 => 87 case 12 => 167 case 13 => 141 case 14 => 157 case _ => 132
  }

  function Si6(l: Byte): Byte {
    match l
    case 0 => 144 case 1 => 216 case 2 => 171 case 3 => 0 case 4 => 140 case 5 => 188 case 6 => 211 case 7 => 10
    case 8 => 247 case 9 => 228 case 10 => 88 case 11 => 5 case 12 => 184 case 13 => 179 case 14 => 69 case _ => 6
  }

  function Si7(l: Byte): Byte {
    match l
    case 0 => 208 case 1 => 44 case 2 => 30 case 3 => 143 case 4 => 202 case 5 => 63 case 6 => 15 case 7 => 2
    case 8 => 193 case 9 => 175 case 10 => 189 case 11 => 3 case 12 => 1 case 13 => 19 case 14 => 138 case _ => 107
  }

  function Si8(l: Byte): Byte {
    match l
    case 0 => 58 case 1 => 145 case 2 => 17 case 3 => 65 case 4 => 79 case 5 => 103 case 6 => 220 case 7 => 234
    case 8 => 151 case 9 => 242 case 10 => 207 case 11 => 206 case 12 => 240 case 13 => 180 case 14 => 230 case _ => 115
  }

  function Si9(l: Byte): Byte {
    match l
    case 0 => 150 case 1 => 172 case 2 => 116 case 3 => 34 case 4 => 231 case 5 => 173 case 6 => 53 case 7 => 133
    case 8 => 226 case 9 => 249 case 10 => 55 case 11 => 232 case 12 => 28 case 13 => 117 case 14 => 223 case _ => 110
  }

  function SiA(l: Byte): Byte {
    match l
    case 0 => 71 case 1 => 241 case 2 => 26 case 3 => 113 case 4 => 29 case 5 => 41 case 6 => 197 case 7 => 137
    case 8 => 111 case 9 => 183 case 10 => 98 case 11 => 14 case 12 => 170 case 13 => 24 case 14 => 190 case _ => 27
  }

  function SiB(l: Byte): Byte {
    match l
    case 0 => 252 case 1 => 86 case 2 => 62 case 3 => 75 case 4 => 198 case 5 => 210 case 6 => 121 case 7 => 32
    case 8 => 154 case 9 => 219 case 10 => 192 case 11 => 254 case 12 => 120 case 13 => 205 case 14 => 90 case _ => 244
  }

  function SiC(l: Byte): Byte {
    match l
    case 0 => 31 case 1 => 221 case 2 => 168 case 3 => 51 case 4 => 136 case 5 => 7 case 6 => 199 case 7 => 49
    case 8 => 177 case 9 => 18 case 10 => 16 case 11 => 89 case 12 => 39 case 13 => 128 case 14 => 236 case _ => 95
  }

  function SiD(l: Byte): Byte {
    match l
    case 0 => 96 case 1 => 81 case 2 => 127 case 3 => 169 case 4 => 25 case 5 => 181 case 6 => 74 case 7 => 13
    case 8 => 45 case 9 => 229 case 10 => 122 case 11 => 159 case 12 => 147 case 13 => 201 case 14 => 156 case _ => 239
  }

  function SiE(l: Byte): Byte {
    match l
    case 0 => 160 case 1 => 224 case 2 => 59 case 3 => 77 case 4 => 174 case 5 => 42 case 6 => 245 case 7 => 176
    case 8 => 200 case 9 => 235 case 10 => 187 case 11 => 60 case 12 => 131 case 13 => 83 case 14 => 153 case _ => 97
  }

  function SiF(l: Byte): Byte {
    match l
    case 0 => 23 case 1 => 43 case 2 => 4 case 3 => 126 case 4 => 186 case 5 => 119 case 6 => 214 case 7 => 38
    case 8 => 225 case 9 => 105 case 10 => 20 case 11 => 99 case 12 => 85 case 13 => 33 case 14 => 12 case _ => 125
  }

  lemma SubstitutionInverse(b: Byte)
    ensures Si(S(b)) == b
  {
  }

  // ----- the field

  /** Addition in the field. */
  function Plus(a: Byte, b: Byte): Byte {
    a ^ b
  }

  lemma PlusSwap(a: Byte, b: Byte, c: Byte, d: Byte)
    ensures Plus(Plus(a, b), Plus(c, d)) == Plus(Plus(a, c), Plus(b, d))
  {
    PlusAssociates(a, b, Plus(c, d));
    PlusAssociates(b, c, d);
    PlusCommutes(b, c);
    PlusAssociates(c, b, d);
    PlusAssociates(a, c, Plus(b, d));
    hide Plus;
  }

  lemma PlusAssociates(a: Byte, b: Byte, c: Byte)
    ensures Plus(Plus(a, b), c) == Plus(a, Plus(b, c))
  {
    assert (a ^ b) ^ c == a ^ (b ^ c);
  }

  lemma PlusCommutes(a: Byte, b: Byte)
    ensures Plus(a, b) == Plus(b, a)
  {
  }

  lemma PlusZero(a: Byte)
    ensures Plus(a, 0) == a && Plus(0, a) == a && Plus(a, a) == 0
  {
  }

  /** Multiplication with x: a shift, and a subtraction of the field's polynomial. */
  function Double(b: Byte): Byte {
    (b << 1) ^ Overflow(b)
  }

  function Overflow(b: Byte): Byte {
    if b & 0x80 != 0 then 0x1b else 0
  }

  /** Multiplication with x + 1, the base of the logarithms. */
  function Triple(b: Byte): Byte {
    Plus(Double(b), b)
  }

  function Pick(k: Byte, bit: Byte, b: Byte): Byte {
    if k & bit != 0 then b else 0
  }

  function Sum(b0: Byte, b1: Byte, b2: Byte, b3: Byte, b4: Byte, b5: Byte, b6: Byte, b7: Byte): Byte {
    Plus(Plus(Plus(b0, b1), Plus(b2, b3)), Plus(Plus(b4, b5), Plus(b6, b7)))
  }

  /** The product in the field: the sum of b x^i over the bits i of k. */
  function Mul(k: Byte, b: Byte): Byte {
    var b1 := Double(b);
    var b2 := Double(b1);
    var b3 := Double(b2);
    var b4 := Double(b3);
    var b5 := Double(b4);
    var b6 := Double(b5);
    var b7 := Double(b6);
    Sum(Pick(k, 1, b), Pick(k, 2, b1), Pick(k, 4, b2), Pick(k, 8, b3),
        Pick(k, 16, b4), Pick(k, 32, b5), Pick(k, 64, b6), Pick(k, 128, b7))
  }

  lemma OverflowAdds(a: Byte, b: Byte)
    ensures Overflow(a ^ b) == Overflow(a) ^ Overflow(b)
  {
    if a & 0x80 != 0 {
      assert (a ^ b) & 0x80 == 0 <==> b & 0x80 != 0;
    } else {
      assert (a ^ b) & 0x80 == 0 <==> b & 0x80 == 0;
    }
  }

  lemma ShiftAdds(a: Byte, b: Byte, c: Byte, d: Byte)
    ensures ((a ^ b) << 1) ^ (c ^ d) == ((a << 1) ^ c) ^ ((b << 1) ^ d)
  {
  }

  lemma DoubleAdds(a: Byte, b: Byte)
    ensures Double(Plus(a, b)) == Plus(Double(a), Double(b))
  {
    hide Overflow;
    OverflowAdds(a, b);
    ShiftAdds(a, b, Overflow(a), Overflow(b));
  }

  lemma PickAdds(k: Byte, bit: Byte, a: Byte, b: Byte)
    ensures Pick(k, bit, Plus(a, b)) == Plus(Pick(k, bit, a), Pick(k, bit, b))
  {
    PlusZero(0);
    hide Plus;
  }

  lemma PickDoubles(k: Byte, bit: Byte, b: Byte)
    ensures Pick(k, bit, Double(b)) == Double(Pick(k, bit, b))
  {
    assert Double(0) == 0;
    hide Double;
  }

  lemma SumAdds(a0: Byte, a1: Byte, a2: Byte, a3: Byte, a4: Byte, a5: Byte, a6: Byte, a7: Byte,
                b0: Byte, b1: Byte, b2: Byte, b3: Byte, b4: Byte, b5: Byte, b6: Byte, b7: Byte)
    ensures Sum(Plus(a0, b0), Plus(a1, b1), Plus(a2, b2), Plus(a3, b3),
                Plus(a4, b4), Plus(a5, b5), Plus(a6, b6), Plus(a7, b7))
         == Plus(Sum(a0, a1, a2, a3, a4, a5, a6, a7), Sum(b0, b1, b2, b3, b4, b5, b6, b7))
  {
    hide Plus;
    PlusSwap(a0, b0, a1, b1);
    PlusSwap(a2, b2, a3, b3);
    PlusSwap(a4, b4, a5, b5);
    PlusSwap(a6, b6, a7, b7);
    PlusSwap(Plus(a0, a1), Plus(b0, b1), Plus(a2, a3), Plus(b2, b3));
    PlusSwap(Plus(a4, a5), Plus(b4, b5), Plus(a6, a7), Plus(b6, b7));
    PlusSwap(Plus(Plus(a0, a1), Plus(a2, a3)), Plus(Plus(b0, b1), Plus(b2, b3)),
             Plus(Plus(a4, a5), Plus(a6, a7)), Plus(Plus(b4, b5), Plus(b6, b7)));
  }

  lemma SumDoubles(b0: Byte, b1: Byte, b2: Byte, b3: Byte, b4: Byte, b5: Byte, b6: Byte, b7: Byte)
    ensures Double(Sum(b0, b1, b2, b3, b4, b5, b6, b7))
         == Sum(Double(b0), Double(b1), Double(b2), Double(b3), Double(b4), Double(b5), Double(b6), Double(b7))
  {
    hide Plus, Double;
    DoubleAdds(b0, b1);
    DoubleAdds(b2, b3);
    DoubleAdds(b4, b5);
    DoubleAdds(b6, b7);
    DoubleAdds(Plus(b0, b1), Plus(b2, b3));
    DoubleAdds(Plus(b4, b5), Plus(b6, b7));
    DoubleAdds(Plus(Plus(b0, b1), Plus(b2, b3)), Plus(Plus(b4, b5), Plus(b6, b7)));
  }

  /** The product distributes over addition. */
  lemma MulAdds(k: Byte, a: Byte, b: Byte)
    ensures Mul(k, Plus(a, b)) == Plus(Mul(k, a), Mul(k, b))
  {
    hide Plus, Double, Pick, Sum;
    var a1, b1 := Double(a), Double(b);
    var a2, b2 := Double(a1), Double(b1);
    var a3, b3 := Double(a2), Double(b2);
    var a4, b4 := Double(a3), Double(b3);
    var a5, b5 := Double(a4), Double(b4);
    var a6, b6 := Double(a5), Double(b5);
    var a7, b7 := Double(a6), Double(b6);
    DoubleAdds(a, b);
    DoubleAdds(a1, b1);
    DoubleAdds(a2, b2);
    DoubleAdds(a3, b3);
    DoubleAdds(a4, b4);
    DoubleAdds(a5, b5);
    DoubleAdds(a6, b6);
    PickAdds(k, 1, a, b);
    PickAdds(k, 2, a1, b1);
    PickAdds(k, 4, a2, b2);
    PickAdds(k, 8, a3, b3);
    PickAdds(k, 16, a4, b4);
    PickAdds(k, 32, a5, b5);
    PickAdds(k, 64, a6, b6);
    PickAdds(k, 128, a7, b7);
    SumAdds(Pick(k, 1, a), Pick(k, 2, a1), Pick(k, 4, a2), Pick(k, 8, a3),
            Pick(k, 16, a4), Pick(k, 32, a5), Pick(k, 64, a6), Pick(k, 128, a7),
            Pick(k, 1, b), Pick(k, 2, b1), Pick(k, 4, b2), Pick(k, 8, b3),
            Pick(k, 16, b4), Pick(k, 32, b5), Pick(k, 64, b6), Pick(k, 128, b7));
  }

  /** Doubling commutes with the product. */
  lemma MulDoubles(k: Byte, b: Byte)
    ensures Mul(k, Double(b)) == Double(Mul(k, b))
  {
    hide Plus, Double, Pick, Sum;
    var b1 := Double(b);
    var b2 := Double(b1);
    var b3 := Double(b2);
    var b4 := Double(b3);
    var b5 := Double(b4);
    var b6 := Double(b5);
    var b7 := Double(b6);
    PickDoubles(k, 1, b);
    PickDoubles(k, 2, b1);
    PickDoubles(k, 4, b2);
    PickDoubles(k, 8, b3);
    PickDoubles(k, 16, b4);
    PickDoubles(k, 32, b5);
    PickDoubles(k, 64, b6);
    PickDoubles(k, 128, b7);
    SumDoubles(Pick(k, 1, b), Pick(k, 2, b1), Pick(k, 4, b2), Pick(k, 8, b3),
               Pick(k, 16, b4), Pick(k, 32, b5), Pick(k, 64, b6), Pick(k, 128, b7));
  }

  lemma MulTriples(k: Byte, b: Byte)
    ensures Mul(k, Triple(b)) == Triple(Mul(k, b))
  {
    hide Double, Mul, Plus;
    MulDoubles(k, b);
    MulAdds(k, Double(b), b);
  }

  lemma PickPower(k: Byte, bit: Byte)
    requires bit in {1, 2, 4, 8, 16, 32, 64, 128}
    ensures Pick(k, bit, bit) == k & bit
  {
  }

  lemma SumOfBits(k: Byte)
    ensures Sum(k & 1, k & 2, k & 4, k & 8, k & 16, k & 32, k & 64, k & 128) == k
  {
  }

  lemma MulOne(k: Byte)
    ensures Mul(k, 1) == k
  {
    assert Double(1) == 2 && Double(2) == 4 && Double(4) == 8 && Double(8) == 16;
    assert Double(16) == 32 && Double(32) == 64 && Double(64) == 128;
    hide Double, Pick, Sum;
    PickPower(k, 1);
    PickPower(k, 2);
    PickPower(k, 4);
    PickPower(k, 8);
    PickPower(k, 16);
    PickPower(k, 32);
    PickPower(k, 64);
    PickPower(k, 128);
    SumOfBits(k);
  }

  lemma MulZero(k: Byte)
    ensures Mul(k, 0) == 0 && Mul(0, k) == 0
  {
    assert Double(0) == 0 && Sum(0, 0, 0, 0, 0, 0, 0, 0) == 0;
    assert forall bit, b :: Pick(0, bit, b) == 0;
    assert forall bit :: Pick(k, bit, 0) == 0;
    hide Double, Sum, Pick;
  }

  // ----- logarithms

  /** The powers of the base. */
  function Power(n: bv16): Byte
    decreases n
  {
    if n == 0 then 1 else Triple(Power(n - 1))
  }

  lemma Row0(n: Byte)
    requires n >> 4 == 0
    ensures Alog(n + 1) == Triple(Alog(n))
  {
    var l := n & 15;
    if l < 15 {
      assert Alog(n + 1) == Alog0(l + 1);
    } else {
      assert Alog(n + 1) == Alog1(0);
    }
  }

  lemma Row1(n: Byte)
    requires n >> 4 == 1
    ensures Alog(n + 1) == Triple(Alog(n))
  {
    var l := n & 15;
    if l < 15 {
      assert Alog(n + 1) == Alog1(l + 1);
    } else {
      assert Alog(n + 1) == Alog2(0);
    }
  }

  lemma Row2(n: Byte)
    requires n >> 4 == 2
    ensures Alog(n + 1) == Triple(Alog(n))
  {
    var l := n & 15;
    if l < 15 {
      assert Alog(n + 1) == Alog2(l + 1);
    } else {
      assert Alog(n + 1) == Alog3(0);
    }
  }

  lemma Row3(n: Byte)
    requires n >> 4 == 3
    ensures Alog(n + 1) == Triple(Alog(n))
  {
    var l := n & 15;
    if l < 15 {
      assert Alog(n + 1) == Alog3(l + 1);
    } else {
      assert Alog(n + 1) == Alog4(0);
    }
  }

  lemma Row4(n: Byte)
    requires n >> 4 == 4
    ensures Alog(n + 1) == Triple(Alog(n))
  {
    var l := n & 15;
    if l < 15 {
      assert Alog(n + 1) == Alog4(l + 1);
    } else {
      assert Alog(n + 1) == Alog5(0);
    }
  }

  lemma Row5(n: Byte)
    requires n >> 4 == 5
    ensures Alog(n + 1) == Triple(Alog(n))
  {
    var l := n & 15;
    if l < 15 {
      assert Alog(n + 1) == Alog5(l + 1);
    } else {
      assert Alog(n + 1) == Alog6(0);
    }
  }

  lemma Row6(n: Byte)
    requires n >> 4 == 6
    ensures Alog(n + 1) == Triple(Alog(n))
  {
    var l := n & 15;
    if l < 15 {
      assert Alog(n + 1) == Alog6(l + 1);
    } else {
      assert Alog(n + 1) == Alog7(0);
    }
  }

  lemma Row7(n: Byte)
    requires n >> 4 == 7
    ensures Alog(n + 1) == Triple(Alog(n))
  {
    var l := n & 15;
    if l < 15 {
      assert Alog(n + 1) == Alog7(l + 1);
    } else {
      assert Alog(n + 1) == Alog8(0);
    }
  }

  lemma Row8(n: Byte)
    requires n >> 4 == 8
    ensures Alog(n + 1) == Triple(Alog(n))
  {
    var l := n & 15;
    if l < 15 {
      assert Alog(n + 1) == Alog8(l + 1);
    } else {
      assert Alog(n + 1) == Alog9(0);
    }
  }

  lemma Row9(n: Byte)
    requires n >> 4 == 9
    ensures Alog(n + 1) == Triple(Alog(n))
  {
    var l := n & 15;
    if l < 15 {
      assert Alog(n + 1) == Alog9(l + 1);
    } else {
      assert Alog(n + 1) == AlogA(0);
    }
  }

  lemma RowA(n: Byte)
    requires n >> 4 == 10
    ensures Alog(n + 1) == Triple(Alog(n))
  {
    var l := n & 15;
    if l < 15 {
      assert Alog(n + 1) == AlogA(l + 1);
    } else {
      assert Alog(n + 1) == AlogB(0);
    }
  }

  lemma RowB(n: Byte)
    requires n >> 4 == 11
    ensures Alog(n + 1) == Triple(Alog(n))
  {
    var l := n & 15;
    if l < 15 {
      assert Alog(n + 1) == AlogB(l + 1);
    } else {
      assert Alog(n + 1) == AlogC(0);
    }
  }

  lemma RowC(n: Byte)
    requires n >> 4 == 12
    ensures Alog(n + 1) == Triple(Alog(n))
  {
    var l := n & 15;
    if l < 15 {
      assert Alog(n + 1) == AlogC(l + 1);
    } else {
      assert Alog(n + 1) == AlogD(0);
    }
  }

  lemma RowD(n: Byte)
    requires n >> 4 == 13
    ensures Alog(n + 1) == Triple(Alog(n))
  {
    var l := n & 15;
    if l < 15 {
      assert Alog(n + 1) == AlogD(l + 1);
    } else {
      assert Alog(n + 1) == AlogE(0);
    }
  }

  lemma RowE(n: Byte)
    requires n >> 4 == 14
    ensures Alog(n + 1) == Triple(Alog(n))
  {
    var l := n & 15;
    if l < 15 {
      assert Alog(n + 1) == AlogE(l + 1);
    } else {
      assert Alog(n + 1) == AlogF(0);
    }
  }

  lemma RowF(n: Byte)
    requires n >> 4 == 15 && n < 255
    ensures Alog(n + 1) == Triple(Alog(n))
  {
    var l := n & 15;
    if l < 15 {
      assert Alog(n + 1) == AlogF(l + 1);
    }
  }

  lemma AlogStep(n: Byte)
    requires n < 255
    ensures Alog(n + 1) == Triple(Alog(n))
  {
    hide *;
    RowNumber(n);
    match n >> 4
    case 0 => Row0(n);
    case 1 => Row1(n);
    case 2 => Row2(n);
    case 3 => Row3(n);
    case 4 => Row4(n);
    case 5 => Row5(n);
    case 6 => Row6(n);
    case 7 => Row7(n);
    case 8 => Row8(n);
    case 9 => Row9(n);
    case 10 => RowA(n);
    case 11 => RowB(n);
    case 12 => RowC(n);
    case 13 => RowD(n);
    case 14 => RowE(n);
    case 15 => RowF(n);
  }

  lemma RowNumber(n: Byte)
    ensures n >> 4 < 16
  {
  }

  function Wide(b: Byte): bv16 {
    b as bv16
  }

  /** The table holds the powers. */
  lemma {:induction false} AlogIsPower(n: Byte)
    ensures Alog(n) == Power(Wide(n))
    decreases n
  {
    hide Alog, Triple;
    if n == 0 {
      AlogZero();
    } else {
      var m := n - 1;
      AlogStep(m);
      AlogIsPower(m);
      assert Wide(n) - 1 == Wide(m);
    }
  }

  lemma AlogZero()
    ensures Alog(0) == 1 && Alog(255) == 1
  {
  }

  lemma AlogLog(b: Byte)
    requires b != 0
    ensures Alog(Log(b)) == b && Log(b) < 255
  {
    hide *;
    if b < 64 {
      AlogLogFirst(b);
    } else if b < 128 {
      AlogLogSecond(b);
    } else if b < 192 {
      AlogLogThird(b);
    } else {
      AlogLogFourth(b);
    }
  }

  lemma AlogLogFirst(b: Byte)
    requires 0 < b < 64
    ensures Alog(Log(b)) == b && Log(b) < 255
  {
  }

  lemma AlogLogSecond(b: Byte)
    requires 64 <= b < 128
    ensures Alog(Log(b)) == b && Log(b) < 255
  {
  }

  lemma AlogLogThird(b: Byte)
    requires 128 <= b < 192
    ensures Alog(Log(b)) == b && Log(b) < 255
  {
  }

  lemma AlogLogFourth(b: Byte)
    requires 192 <= b
    ensures Alog(Log(b)) == b && Log(b) < 255
  {
  }

  /** Multiplying with a power adds to the exponent. */
  lemma {:induction false} MulPower(i: bv16, n: bv16)
    requires i < 0x100 && n < 0x100
    ensures Mul(Power(i), Power(n)) == Power(i + n)
    decreases n
  {
    hide Mul, Triple, Power;
    PowerStep(n);
    if n == 0 {
      MulOne(Power(i));
    } else {
      MulPower(i, n - 1);
      MulTriples(Power(i), Power(n - 1));
      OneLess(i, n);
      PowerStep(i + n);
    }
  }

  lemma PowerStep(n: bv16)
    ensures Power(n) == if n == 0 then 1 else Triple(Power(n - 1))
  {
  }

  lemma OneLess(i: bv16, n: bv16)
    requires i < 0x100 && 0 < n < 0x100
    ensures i + n - 1 == i + (n - 1) && i + n != 0 && i + 0 == i
  {
  }

  lemma {:induction false} PowerPeriod(n: bv16)
    requires 255 <= n < 0x200
    ensures Power(n) == Power(n - 255)
    decreases n
  {
    hide Triple;
    if n == 255 {
      AlogZero();
      AlogIsPower(255);
      assert Power(0) == 1;
    } else {
      PowerPeriod(n - 1);
      assert n - 255 != 0 && n - 255 - 1 == n - 1 - 255;
    }
  }

  /** Multiplication by adding logarithms; there is no test for a factor k of 0. */
  function GF2M(k: Byte, b: Byte): Byte {
    if b == 0 then 0 else Alog(SumModulo(Log(k), Log(b)))
  }

  /** The exponent as it is looked up. */
  function SumModulo(i: Byte, j: Byte): Byte {
    ((i as bv16 + j as bv16) % 255) as Byte
  }

  lemma SumModuloIs(i: Byte, j: Byte)
    requires i < 255 && j < 255
    ensures var s := Wide(i) + Wide(j);
            Wide(i) < 0x100 && Wide(j) < 0x100 && s < 0x200 && Wide(SumModulo(i, j)) == if s < 255 then s else s - 255
  {
  }

  lemma PowerOfSum(i: Byte, j: Byte)
    requires i < 255 && j < 255
    ensures Mul(Power(Wide(i)), Power(Wide(j))) == Power(Wide(SumModulo(i, j)))
  {
    hide *;
    SumModuloIs(i, j);
    var s := Wide(i) + Wide(j);
    MulPower(Wide(i), Wide(j));
    if s >= 255 {
      PowerPeriod(s);
    }
  }

  lemma NonzeroProduct(k: Byte, b: Byte)
    requires k != 0 && b != 0
    ensures GF2M(k, b) == Mul(k, b)
  {
    hide Alog, Log, Power, Mul, Wide, SumModulo;
    AlogLog(b);
    AlogLog(k);
    AlogIsPower(Log(b));
    AlogIsPower(Log(k));
    PowerOfSum(Log(k), Log(b));
    AlogIsPower(SumModulo(Log(k), Log(b)));
  }

  lemma LogOfZero(b: Byte)
    requires b != 0
    ensures SumModulo(Log(0), Log(b)) == Log(b)
  {
    hide Alog;
    AlogLog(b);
    assert Log(0) == 0;
    hide Log;
  }

  /** The tables multiply exactly, unless only the factor k is 0. */
  lemma TablesMultiply(k: Byte, b: Byte)
    ensures GF2M(k, b) == Mul(k, b) <==> k != 0 || b == 0
  {
    hide Alog, Log, Mul, SumModulo;
    if b == 0 {
      MulZero(k);
    } else if k == 0 {
      MulZero(b);
      LogOfZero(b);
      AlogLog(b);
    } else {
      NonzeroProduct(k, b);
    }
  }

  // ----- the substitution

  /** The inverse in the field by logarithms; 0, which has none, stays. */
  function Inverted(b: Byte): Byte {
    if b == 0 then 0 else Alog(255 - Log(b))
  }

  function Rol(b: Byte): Byte {
    (b << 1) | (b >> 7)
  }

  /** Each bit is the sum of five bits in a row, and 0x63 is added. */
  function Affine(b: Byte): Byte {
    b ^ Rol(b) ^ Rol(Rol(b)) ^ Rol(Rol(Rol(b))) ^ Rol(Rol(Rol(Rol(b)))) ^ 0x63
  }

  lemma InvertedIs(b: Byte)
    requires b != 0
    ensures Mul(b, Inverted(b)) == 1
  {
    AlogZero();
    hide Alog, Log, Power, Mul;
    var l := Log(b);
    var m := 255 - l;
    AlogLog(b);
    AlogIsPower(l);
    AlogIsPower(m);
    AlogIsPower(255);
    MulPower(Wide(l), Wide(m));
    assert Wide(l) + Wide(m) == Wide(255);
  }

  lemma SubstitutionByTable(b: Byte)
    ensures S(b) == Affine(Inverted(b))
  {
    hide *;
    if b == 0 {
      SubstitutionOfZero();
    } else {
      SubstitutionOfOthers(b);
    }
  }

  lemma SubstitutionOfZero()
    ensures S(0) == Affine(Inverted(0))
  {
  }

  lemma SubstitutionOfOthers(b: Byte)
    requires b != 0
    ensures S(b) == Affine(Inverted(b))
  {
  }

  /** The substitution of section 5.1.1 of FIPS 197: an affine map of the inverse in the field. */
  lemma SubstitutionIs(b: Byte) returns (i: Byte)
    ensures if b == 0 then i == 0 else Mul(b, i) == 1
    ensures S(b) == i ^ Rol(i) ^ Rol(Rol(i)) ^ Rol(Rol(Rol(i))) ^ Rol(Rol(Rol(Rol(i)))) ^ 0x63
  {
    i := Inverted(b);
    if b != 0 {
      InvertedIs(b);
    }
    SubstitutionByTable(b);
    hide S, Mul, Alog, Log, Rol;
  }
}
