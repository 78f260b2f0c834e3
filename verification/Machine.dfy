/** The unsigned types of C that several of the models share. */
module Machine {

  type Byte = x: int | 0 <= x < 0x100

  type U16 = x: int | 0 <= x < 0x1_0000
}
