/** The account names and aliases of internal/domain/accounts, and the proof that the alias table is well-formed. */
module AccountTables {
  import opened Accounts

  const ASSETS: set<string> := {
    "現金", "小口現金", "当座預金", "普通預金", "定期預金", "売掛金", "クレジット売掛金", "受取手形",
    "電子記録債権", "繰越商品", "貸付金", "手形貸付金", "立替金", "前払金", "仮払金", "未収入金",
    "受取商品券", "差入保証金", "貯蔵品", "仮払消費税", "仮払法人税等", "前払保険料", "前払家賃", "未収利息",
    "未収家賃", "建物", "備品", "車両運搬具", "土地"
  }

  const LIABILITIES: set<string> := {
    "買掛金", "支払手形", "電子記録債務", "借入金", "手形借入金", "預り金", "所得税預り金",
    "社会保険料預り金", "前受金", "仮受金", "未払金", "未払配当金", "仮受消費税", "未払消費税",
    "未払法人税等", "未払利息", "未払家賃", "前受家賃", "前受地代", "当座借越"
  }

  const VALUATION: set<string> := {
    "貸倒引当金", "建物減価償却累計額", "備品減価償却累計額", "車両運搬具減価償却累計額"
  }

  const EQUITY: set<string> := {
    "資本金", "利益準備金", "繰越利益剰余金"
  }

  const INCOME: set<string> := {
    "売上", "受取手数料", "受取家賃", "受取地代", "受取利息", "雑益", "償却債権取立益", "固定資産売却益"
  }

  const EXPENSES: set<string> := {
    "仕入", "発送費", "給料", "法定福利費", "広告宣伝費", "支払手数料", "支払利息", "旅費交通費",
    "貸倒引当金繰入", "貸倒損失", "減価償却費", "通信費", "消耗品費", "水道光熱費", "支払家賃", "支払地代",
    "保険料", "修繕費", "雑損", "固定資産売却損", "租税公課", "法人税等"
  }

  const CLOSING: set<string> := {
    "損益"
  }

  const SUSPENSE: set<string> := {
    "現金過不足"
  }

  const STANDARD: set<string> :=
    ASSETS + LIABILITIES + VALUATION + EQUITY + INCOME + EXPENSES + CLOSING + SUSPENSE

  const ALIASES_1: Table := map[
    "売り上げ" := "売上", "売上げ" := "売上", "仕入れ" := "仕入"
  ]

  const ALIASES_2: Table := map[
    "繰越し商品" := "繰越商品", "繰り越し商品" := "繰越商品", "売掛け金" := "売掛金"
  ]

  const ALIASES_3: Table := map[
    "買掛け金" := "買掛金", "受取り手形" := "受取手形", "受け取り手形" := "受取手形"
  ]

  const ALIASES_4: Table := map[
    "支払い手形" := "支払手形", "貸付け金" := "貸付金", "借入れ金" := "借入金"
  ]

  const ALIASES_5: Table := map[
    "手形貸付け金" := "手形貸付金", "手形借入れ金" := "手形借入金", "立替え金" := "立替金"
  ]

  const ALIASES_6: Table := map[
    "預かり金" := "預り金", "前払い金" := "前払金", "前受け金" := "前受金"
  ]

  const ALIASES_7: Table := map[
    "仮払い金" := "仮払金", "仮受け金" := "仮受金", "未払い金" := "未払金"
  ]

  const ALIASES_8: Table := map[
    "未収金" := "未収入金", "受取り商品券" := "受取商品券", "差入れ保証金" := "差入保証金"
  ]

  const ALIASES_9: Table := map[
    "仮払い消費税" := "仮払消費税", "仮受け消費税" := "仮受消費税", "未払い消費税" := "未払消費税"
  ]

  const ALIASES_10: Table := map[
    "仮払い法人税等" := "仮払法人税等", "未払い法人税等" := "未払法人税等", "未払い配当金" := "未払配当金"
  ]

  const ALIASES_11: Table := map[
    "前払い保険料" := "前払保険料", "前払い家賃" := "前払家賃", "未払い利息" := "未払利息"
  ]

  const ALIASES_12: Table := map[
    "未払い家賃" := "未払家賃", "前受け家賃" := "前受家賃", "前受け地代" := "前受地代"
  ]

  const ALIASES_13: Table := map[
    "受取り手数料" := "受取手数料", "受取り家賃" := "受取家賃", "受取り地代" := "受取地代"
  ]

  const ALIASES_14: Table := map[
    "受取り利息" := "受取利息", "支払い手数料" := "支払手数料", "支払い利息" := "支払利息"
  ]

  const ALIASES_15: Table := map[
    "支払い家賃" := "支払家賃", "支払い地代" := "支払地代", "貸倒れ引当金" := "貸倒引当金"
  ]

  const ALIASES_16: Table := map[
    "貸倒れ引当金繰入" := "貸倒引当金繰入", "貸倒引当金繰入れ" := "貸倒引当金繰入",
    "貸倒れ引当金繰入れ" := "貸倒引当金繰入"
  ]

  const ALIASES_17: Table := map[
    "貸倒れ損失" := "貸倒損失", "償却債権取立て益" := "償却債権取立益",
    "償却債権取り立て益" := "償却債権取立益"
  ]

  const FIRST_ALIASES: Table :=
    ALIASES_1 + ALIASES_2 + ALIASES_3 + ALIASES_4 + ALIASES_5 + ALIASES_6

  const SECOND_ALIASES: Table :=
    ALIASES_7 + ALIASES_8 + ALIASES_9 + ALIASES_10 + ALIASES_11 + ALIASES_12

  const THIRD_ALIASES: Table :=
    ALIASES_13 + ALIASES_14 + ALIASES_15 + ALIASES_16 + ALIASES_17

  const ALIASES: Table := FIRST_ALIASES + SECOND_ALIASES + THIRD_ALIASES

  predicate IsHiragana(c: char) {
    '\U{3041}' <= c <= '\U{3096}'
  }

  /** Standard names write hiragana only right after this character; every alias but one writes it elsewhere. */
  const DEPOSIT: char := '預'
  const UNCOLLECTED := "未収金"

  predicate PlainAt(s: string, i: nat)
    requires i < |s|
  {
    s[i] > '\U{3000}' && (IsHiragana(s[i]) ==> i > 0 && s[i - 1] == DEPOSIT)
  }

  predicate Plain(s: string) {
    forall i :: 0 <= i < |s| ==> PlainAt(s, i)
  }

  /** Beyond the last of the space characters. */
  predicate Wide(s: string) {
    forall i :: 0 <= i < |s| ==> s[i] > '\U{3000}'
  }

  ghost predicate AliasShape(k: string) {
    Wide(k) && (!Plain(k) || k == UNCOLLECTED)
  }

  lemma Okurigana(k: string, i: nat)
    requires i < |k| && IsHiragana(k[i]) && (i > 0 ==> k[i - 1] != DEPOSIT)
    requires Wide(k)
    ensures AliasShape(k)
  {
    assert !PlainAt(k, i);
  }

  ghost predicate StandardShape(s: string) {
    Plain(s) && s != UNCOLLECTED
  }

  lemma AssetsArePlain()
    ensures forall s :: s in ASSETS ==> StandardShape(s)
  {
  }

  lemma LiabilitiesArePlain()
    ensures forall s :: s in LIABILITIES ==> StandardShape(s)
  {
  }

  lemma ValuationArePlain()
    ensures forall s :: s in VALUATION ==> StandardShape(s)
  {
  }

  lemma EquityArePlain()
    ensures forall s :: s in EQUITY ==> StandardShape(s)
  {
  }

  lemma IncomeArePlain()
    ensures forall s :: s in INCOME ==> StandardShape(s)
  {
  }

  lemma ExpensesArePlain()
    ensures forall s :: s in EXPENSES ==> StandardShape(s)
  {
  }

  lemma ClosingArePlain()
    ensures forall s :: s in CLOSING ==> StandardShape(s)
  {
  }

  lemma SuspenseArePlain()
    ensures forall s :: s in SUSPENSE ==> StandardShape(s)
  {
  }

  ghost predicate KeysShaped(t: Table) {
    forall k :: k in t ==> AliasShape(k)
  }

  ghost predicate ValuesIn(t: Table, standard: set<string>) {
    forall k :: k in t ==> t[k] in standard
  }

  lemma UnionShaped(t: Table, t': Table)
    requires KeysShaped(t) && KeysShaped(t')
    ensures KeysShaped(t + t')
  {
  }

  lemma UnionValues(t: Table, t': Table, standard: set<string>)
    requires ValuesIn(t, standard) && ValuesIn(t', standard)
    ensures ValuesIn(t + t', standard)
  {
  }

  lemma Aliases1Keys()
    ensures KeysShaped(ALIASES_1)
  {
    Okurigana("売り上げ", 1);
    Okurigana("売上げ", 2);
    Okurigana("仕入れ", 2);
  }

  lemma Aliases1Values()
    ensures ValuesIn(ALIASES_1, STANDARD)
  {
  }

  lemma Aliases2Keys()
    ensures KeysShaped(ALIASES_2)
  {
    Okurigana("繰越し商品", 2);
    Okurigana("繰り越し商品", 1);
    Okurigana("売掛け金", 2);
  }

  lemma Aliases2Values()
    ensures ValuesIn(ALIASES_2, STANDARD)
  {
  }

  lemma Aliases3Keys()
    ensures KeysShaped(ALIASES_3)
  {
    Okurigana("買掛け金", 2);
    Okurigana("受取り手形", 2);
    Okurigana("受け取り手形", 1);
  }

  lemma Aliases3Values()
    ensures ValuesIn(ALIASES_3, STANDARD)
  {
  }

  lemma Aliases4Keys()
    ensures KeysShaped(ALIASES_4)
  {
    Okurigana("支払い手形", 2);
    Okurigana("貸付け金", 2);
    Okurigana("借入れ金", 2);
  }

  lemma Aliases4Values()
    ensures ValuesIn(ALIASES_4, STANDARD)
  {
  }

  lemma Aliases5Keys()
    ensures KeysShaped(ALIASES_5)
  {
    Okurigana("手形貸付け金", 4);
    Okurigana("手形借入れ金", 4);
    Okurigana("立替え金", 2);
  }

  lemma Aliases5Values()
    ensures ValuesIn(ALIASES_5, STANDARD)
  {
  }

  lemma Aliases6Keys()
    ensures KeysShaped(ALIASES_6)
  {
    Okurigana("預かり金", 2);
    Okurigana("前払い金", 2);
    Okurigana("前受け金", 2);
  }

  lemma Aliases6Values()
    ensures ValuesIn(ALIASES_6, STANDARD)
  {
  }

  lemma Aliases7Keys()
    ensures KeysShaped(ALIASES_7)
  {
    Okurigana("仮払い金", 2);
    Okurigana("仮受け金", 2);
    Okurigana("未払い金", 2);
  }

  lemma Aliases7Values()
    ensures ValuesIn(ALIASES_7, STANDARD)
  {
  }

  lemma Aliases8Keys()
    ensures KeysShaped(ALIASES_8)
  {
    Okurigana("受取り商品券", 2);
    Okurigana("差入れ保証金", 2);
  }

  lemma Aliases8Values()
    ensures ValuesIn(ALIASES_8, STANDARD)
  {
  }

  lemma Aliases9Keys()
    ensures KeysShaped(ALIASES_9)
  {
    Okurigana("仮払い消費税", 2);
    Okurigana("仮受け消費税", 2);
    Okurigana("未払い消費税", 2);
  }

  lemma Aliases9Values()
    ensures ValuesIn(ALIASES_9, STANDARD)
  {
  }

  lemma Aliases10Keys()
    ensures KeysShaped(ALIASES_10)
  {
    Okurigana("仮払い法人税等", 2);
    Okurigana("未払い法人税等", 2);
    Okurigana("未払い配当金", 2);
  }

  lemma Aliases10Values()
    ensures ValuesIn(ALIASES_10, STANDARD)
  {
  }

  lemma Aliases11Keys()
    ensures KeysShaped(ALIASES_11)
  {
    Okurigana("前払い保険料", 2);
    Okurigana("前払い家賃", 2);
    Okurigana("未払い利息", 2);
  }

  lemma Aliases11Values()
    ensures ValuesIn(ALIASES_11, STANDARD)
  {
  }

  lemma Aliases12Keys()
    ensures KeysShaped(ALIASES_12)
  {
    Okurigana("未払い家賃", 2);
    Okurigana("前受け家賃", 2);
    Okurigana("前受け地代", 2);
  }

  lemma Aliases12Values()
    ensures ValuesIn(ALIASES_12, STANDARD)
  {
  }

  lemma Aliases13Keys()
    ensures KeysShaped(ALIASES_13)
  {
    Okurigana("受取り手数料", 2);
    Okurigana("受取り家賃", 2);
    Okurigana("受取り地代", 2);
  }

  lemma Aliases13Values()
    ensures ValuesIn(ALIASES_13, STANDARD)
  {
  }

  lemma Aliases14Keys()
    ensures KeysShaped(ALIASES_14)
  {
    Okurigana("受取り利息", 2);
    Okurigana("支払い手数料", 2);
    Okurigana("支払い利息", 2);
  }

  lemma Aliases14Values()
    ensures ValuesIn(ALIASES_14, STANDARD)
  {
  }

  lemma Aliases15Keys()
    ensures KeysShaped(ALIASES_15)
  {
    Okurigana("支払い家賃", 2);
    Okurigana("支払い地代", 2);
    Okurigana("貸倒れ引当金", 2);
  }

  lemma Aliases15Values()
    ensures ValuesIn(ALIASES_15, STANDARD)
  {
  }

  lemma Aliases16Keys()
    ensures KeysShaped(ALIASES_16)
  {
    Okurigana("貸倒れ引当金繰入", 2);
    Okurigana("貸倒引当金繰入れ", 7);
    Okurigana("貸倒れ引当金繰入れ", 2);
  }

  lemma Aliases16Values()
    ensures ValuesIn(ALIASES_16, STANDARD)
  {
  }

  lemma Aliases17Keys()
    ensures KeysShaped(ALIASES_17)
  {
    Okurigana("貸倒れ損失", 2);
    Okurigana("償却債権取立て益", 6);
    Okurigana("償却債権取り立て益", 5);
  }

  lemma Aliases17Values()
    ensures ValuesIn(ALIASES_17, STANDARD)
  {
  }

  lemma FirstKeys()
    ensures KeysShaped(FIRST_ALIASES)
  {
    Aliases1Keys();
    Aliases2Keys();
    Aliases3Keys();
    Aliases4Keys();
    Aliases5Keys();
    Aliases6Keys();
    UnionShaped(ALIASES_1, ALIASES_2);
    UnionShaped(ALIASES_1 + ALIASES_2, ALIASES_3);
    UnionShaped(ALIASES_1 + ALIASES_2 + ALIASES_3, ALIASES_4);
    UnionShaped(ALIASES_1 + ALIASES_2 + ALIASES_3 + ALIASES_4, ALIASES_5);
    UnionShaped(ALIASES_1 + ALIASES_2 + ALIASES_3 + ALIASES_4 + ALIASES_5, ALIASES_6);
  }

  lemma SecondKeys()
    ensures KeysShaped(SECOND_ALIASES)
  {
    Aliases7Keys();
    Aliases8Keys();
    Aliases9Keys();
    Aliases10Keys();
    Aliases11Keys();
    Aliases12Keys();
    UnionShaped(ALIASES_7, ALIASES_8);
    UnionShaped(ALIASES_7 + ALIASES_8, ALIASES_9);
    UnionShaped(ALIASES_7 + ALIASES_8 + ALIASES_9, ALIASES_10);
    UnionShaped(ALIASES_7 + ALIASES_8 + ALIASES_9 + ALIASES_10, ALIASES_11);
    UnionShaped(ALIASES_7 + ALIASES_8 + ALIASES_9 + ALIASES_10 + ALIASES_11, ALIASES_12);
  }

  lemma ThirdKeys()
    ensures KeysShaped(THIRD_ALIASES)
  {
    Aliases13Keys();
    Aliases14Keys();
    Aliases15Keys();
    Aliases16Keys();
    Aliases17Keys();
    UnionShaped(ALIASES_13, ALIASES_14);
    UnionShaped(ALIASES_13 + ALIASES_14, ALIASES_15);
    UnionShaped(ALIASES_13 + ALIASES_14 + ALIASES_15, ALIASES_16);
    UnionShaped(ALIASES_13 + ALIASES_14 + ALIASES_15 + ALIASES_16, ALIASES_17);
  }

  lemma AllKeys()
    ensures KeysShaped(ALIASES)
  {
    FirstKeys();
    SecondKeys();
    ThirdKeys();
    UnionShaped(FIRST_ALIASES, SECOND_ALIASES);
    UnionShaped(FIRST_ALIASES + SECOND_ALIASES, THIRD_ALIASES);
  }

  lemma FirstValues()
    ensures ValuesIn(FIRST_ALIASES, STANDARD)
  {
    Aliases1Values();
    Aliases2Values();
    Aliases3Values();
    Aliases4Values();
    Aliases5Values();
    Aliases6Values();
    UnionValues(ALIASES_1, ALIASES_2, STANDARD);
    UnionValues(ALIASES_1 + ALIASES_2, ALIASES_3, STANDARD);
    UnionValues(ALIASES_1 + ALIASES_2 + ALIASES_3, ALIASES_4, STANDARD);
    UnionValues(ALIASES_1 + ALIASES_2 + ALIASES_3 + ALIASES_4, ALIASES_5, STANDARD);
    UnionValues(ALIASES_1 + ALIASES_2 + ALIASES_3 + ALIASES_4 + ALIASES_5, ALIASES_6, STANDARD);
  }

  lemma SecondValues()
    ensures ValuesIn(SECOND_ALIASES, STANDARD)
  {
    Aliases7Values();
    Aliases8Values();
    Aliases9Values();
    Aliases10Values();
    Aliases11Values();
    Aliases12Values();
    UnionValues(ALIASES_7, ALIASES_8, STANDARD);
    UnionValues(ALIASES_7 + ALIASES_8, ALIASES_9, STANDARD);
    UnionValues(ALIASES_7 + ALIASES_8 + ALIASES_9, ALIASES_10, STANDARD);
    UnionValues(ALIASES_7 + ALIASES_8 + ALIASES_9 + ALIASES_10, ALIASES_11, STANDARD);
    UnionValues(ALIASES_7 + ALIASES_8 + ALIASES_9 + ALIASES_10 + ALIASES_11, ALIASES_12, STANDARD);
  }

  lemma ThirdValues()
    ensures ValuesIn(THIRD_ALIASES, STANDARD)
  {
    Aliases13Values();
    Aliases14Values();
    Aliases15Values();
    Aliases16Values();
    Aliases17Values();
    UnionValues(ALIASES_13, ALIASES_14, STANDARD);
    UnionValues(ALIASES_13 + ALIASES_14, ALIASES_15, STANDARD);
    UnionValues(ALIASES_13 + ALIASES_14 + ALIASES_15, ALIASES_16, STANDARD);
    UnionValues(ALIASES_13 + ALIASES_14 + ALIASES_15 + ALIASES_16, ALIASES_17, STANDARD);
  }

  lemma AllValues()
    ensures ValuesIn(ALIASES, STANDARD)
  {
    FirstValues();
    SecondValues();
    ThirdValues();
    UnionValues(FIRST_ALIASES, SECOND_ALIASES, STANDARD);
    UnionValues(FIRST_ALIASES + SECOND_ALIASES, THIRD_ALIASES, STANDARD);
  }

  lemma StandardIsPlain()
    ensures forall s :: s in STANDARD ==> StandardShape(s)
  {
    AssetsArePlain();
    LiabilitiesArePlain();
    ValuationArePlain();
    EquityArePlain();
    IncomeArePlain();
    ExpensesArePlain();
    ClosingArePlain();
    SuspenseArePlain();
  }

  /** The table in use is well-formed. */
  lemma StandardTableIsWellFormed()
    ensures WellFormed(ALIASES, STANDARD)
  {
    StandardIsPlain();
    AllKeys();
    AllValues();
    ShapesSuffice(ALIASES, STANDARD);
  }

  lemma ShapesSuffice(aliases: Table, standard: set<string>)
    requires KeysShaped(aliases) && ValuesIn(aliases, standard)
    requires forall s :: s in standard ==> StandardShape(s)
    ensures WellFormed(aliases, standard)
  {
    forall s | s in standard ensures Clean(s) {
      forall i | 0 <= i < |s| ensures !IsSpace(s[i]) { assert PlainAt(s, i); }
    }
    forall k | k in aliases ensures Clean(k) && k !in standard {
      WideIsClean(k);
    }
  }

  lemma WideIsClean(s: string)
    requires Wide(s)
    ensures Clean(s)
  {
  }
}
