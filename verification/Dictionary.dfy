/** The pinyin dictionary as the engine holds it (src/im/pinyin/py.h): characters grouped by
    syllable code, and the phrases each character begins. */
module Dictionary {

  /** A phrase of two or more characters, without its first one. */
  datatype Phrase = Phrase(text: string, strMap: string, hit: nat, stamp: nat)

  /** One character and the user and system phrases it begins. */
  datatype Base = Base(hz: string, user: seq<Phrase>, system: seq<Phrase>, hit: nat)

  /** The characters of one syllable code. */
  datatype Group = Group(strMap: string, bases: seq<Base>)
}
