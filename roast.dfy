/** The roast generator: constant tables of remarks keyed by filename
    keyword, age, size and type, the candidate list built from them, and a
    pick from that list (or from the defaults when it is empty). */
module Roast {
  import opened Text
  import opened Records

  /** Keywords in table order, each with its remarks. */
  const FilenameRoasts: seq<(string, seq<string>)> := [
    ("備份", [
      "備份狂魔！你是不是覺得硬碟空間不要錢？",
      "備份這麼多份，原檔在哪你還記得嗎？",
      "備份強迫症確診，建議就醫",
      "備份的備份的備份...你在拍乘法表嗎？"]),
    ("最終", [
      "又一個『最終版』，我看這輩子都最終不了",
      "最終版就像減肥計畫，永遠有下一個最終版",
      "『最終版』三個字是這世界上最大的謊言"]),
    ("最終版", [
      "敢叫最終版？那後面的 v2、v3 是什麼？幽靈嗎？",
      "最終版永遠不是最終的，跟你的前任一樣"]),
    ("final", [
      "final_final_真的final_這次真的final_拜託是final.docx",
      "final 是一種信仰，不是事實",
      "The final countdown... 然後還有 final_v2"]),
    ("副本", [
      "副本套副本，你以為這是《乘法表》？",
      "副本數量比你的存款還多，可喜可賀"]),
    ("copy", [
      "Ctrl+C 狂魔現身！鍵盤都要被你按壞了",
      "Copy paste 工程師的典範"]),
    ("新增", [
      "新增了什麼？新增了更多困惑和混亂"]),
    ("修改", [
      "修改到連你媽都認不出來了吧",
      "修改無數次，結果跟原版一樣爛"]),
    ("test", [
      "測試檔案活到現在...這測試是要測到地老天荒？",
      "test 檔案比你的工作態度還持久"]),
    ("temp", [
      "『暫時』的東西活得比你的新年目標還久",
      "temp 檔案：我只是暫時的（活了 5 年）"]),
    ("untitled", [
      "連名字都懶得取，這檔案是路邊撿的嗎？",
      "Untitled：我沒有名字，但我有故事（才怪）"]),
    ("未命名", [
      "未命名就是未來會忘記這是什麼的意思",
      "連名字都不配擁有的檔案"]),
    ("node_modules", [
      "打包 node_modules？這是什麼邪教儀式？",
      "node_modules 打包？你是想毀滅世界嗎？"]),
    ("新建", [
      "新建文件夾.zip 裡面是新建文件夾嗎？俄羅斯套娃？"]),
    ("desktop", [
      "桌面檔案備份...你的桌面是有多亂？"])
  ]

  /** Age tiers in years, largest threshold first. */
  const AgeRoasts: seq<(nat, seq<string>)> := [
    (10, [
      "這檔案都可以小學畢業了，你還留著幹嘛？",
      "考古學家來電！這化石級檔案該進博物館了",
      "十年了，這檔案比很多婚姻還持久",
      "這檔案見證了三任總統、五支 iPhone"]),
    (7, [
      "七年之癢都過了，該放手了吧？",
      "這檔案比你的上一段感情還長壽"]),
    (5, [
      "這檔案都可以上幼稒園了，還不送走？",
      "五年了，連 Windows 都換了兩版"]),
    (3, [
      "三年了，疫情都結束了，這檔案還在"])
  ]

  /** Size tiers in MB, largest threshold first. */
  const SizeRoasts: seq<(nat, seq<string>)> := [
    (500, [
      "半個 G！你是把整個專案打包進去了？",
      "這檔案比有些人的硬碟還大",
      "500MB 以上應該要收停車費"]),
    (100, [
      "這麼肥是要撐爆硬碟嗎？數位減肥了解一下",
      "100MB 以上的檔案都該被審判",
      "你的 SSD 正在哭泣，聽到了嗎？"]),
    (50, [
      "肥成這樣，建議送去數位健身房",
      "50MB 的檔案，每一 MB 都是浪費"]),
    (20, [
      "不算小了，比我的夢想還要肥"])
  ]

  /** Remarks keyed by the (lower-case) type folder name. */
  const TypeRoasts: map<string, seq<string>> := map[
    "ppt" := [
      "PPT 戰士！會議的噩夢製造機",
      "簡報一時爽，做簡報火葬場",
      "PPT 工程師，用動畫解決一切問題"],
    "doc" := [
      "Word 文件：排版永遠神秘歪掉的存在",
      "doc 檔案，開啟的人都會嘆氣"],
    "xls" := [
      "Excel 大師！公式套公式，出錯找到死",
      "試算表：讓簡單的事變複雜的藝術"],
    "pdf" := [
      "PDF：印出來比螢幕上好看的唯一格式"],
    "zip" := [
      "壓縮檔：不知道裡面是什麼的神秘盒子",
      "zip 檔案，打開可能有驚喜（或驚嚇）"],
    "rar" := [
      "RAR 檔？什麼年代了還在用 RAR？"],
    "exe" := [
      "exe 檔留這麼久，是在收藏病毒嗎？"],
    "dmg" := [
      "安裝檔留著幹嘛？你以為會用第二次？"]
  ]

  /** Remarks used when no rule applies. */
  const DefaultRoasts: seq<string> := [
    "這檔案目前逃過一劫，但我正在盯著它",
    "暫時沒什麼好說的，但不代表它沒問題",
    "看起來人畜無害，但誰知道呢",
    "普通的檔案，普通的浪費空間"
  ]

  /** Bytes in one MB, as `size_mb` divides by. */
  const MegaByte: nat := 1024 * 1024

  /** The remarks of every keyword found in the lower-cased name, in table
      order; matches accumulate. */
  function KeywordPart(lowerName: string, table: seq<(string, seq<string>)>): (r: seq<string>)
    ensures (forall i :: 0 <= i < |table| ==> !Contains(lowerName, Lower(table[i].0))) ==> r == []
  {
    if |table| == 0 then []
    else
      var last := table[|table| - 1];
      KeywordPart(lowerName, table[..|table| - 1])
        + (if Contains(lowerName, Lower(last.0)) then last.1 else [])
  }

  /** A remark is a keyword candidate exactly when it belongs to some
      keyword that occurs in the name. */
  lemma {:induction false} KeywordPartMembers(lowerName: string, table: seq<(string, seq<string>)>, m: string)
    ensures m in KeywordPart(lowerName, table) <==>
      exists i :: 0 <= i < |table| && Contains(lowerName, Lower(table[i].0)) && m in table[i].1
  {
    if |table| > 0 {
      var n := |table| - 1;
      var front := table[..n];
      KeywordPartMembers(lowerName, front, m);
      if m in KeywordPart(lowerName, table) {
        if m in KeywordPart(lowerName, front) {
          var i :| 0 <= i < |front| && Contains(lowerName, Lower(front[i].0)) && m in front[i].1;
          assert table[i] == front[i];
        } else {
          assert Contains(lowerName, Lower(table[n].0)) && m in table[n].1;
        }
      }
      if exists i :: 0 <= i < |table| && Contains(lowerName, Lower(table[i].0)) && m in table[i].1 {
        var i :| 0 <= i < |table| && Contains(lowerName, Lower(table[i].0)) && m in table[i].1;
        if i < n {
          assert front[i] == table[i];
        }
      }
    }
  }

  /** The position of the first tier whose threshold, in units of `scale`,
      the value reaches; `|tiers|` when it reaches none. */
  function TierIndex(tiers: seq<(nat, seq<string>)>, v: int, scale: nat): (k: nat)
    ensures k <= |tiers|
    ensures forall j :: 0 <= j < k ==> v < tiers[j].0 * scale
    ensures k < |tiers| ==> v >= tiers[k].0 * scale
  {
    if |tiers| == 0 then 0
    else if v >= tiers[0].0 * scale then 0
    else 1 + TierIndex(tiers[1..], v, scale)
  }

  /** The remarks of the first tier reached, or none when the value is
      below every threshold. */
  function TierPart(tiers: seq<(nat, seq<string>)>, v: int, scale: nat): (r: seq<string>)
    ensures forall m :: m in r ==> m in Remarks(tiers)
    ensures (forall j :: 0 <= j < |tiers| ==> v < tiers[j].0 * scale) ==> r == []
  {
    var k := TierIndex(tiers, v, scale);
    if k < |tiers| then tiers[k].1 else []
  }

  /** Thresholds strictly decreasing, as `sorted(..., reverse=True)` lists
      the keys. */
  predicate Descending(tiers: seq<(nat, seq<string>)>)
  {
    forall i, j :: 0 <= i < j < |tiers| ==> tiers[i].0 > tiers[j].0
  }

  lemma TablesDescending()
    ensures Descending(AgeRoasts) && Descending(SizeRoasts)
  {
  }

  /** With thresholds in decreasing order, the first tier reached is the
      one with the largest threshold the value reaches; when none is
      reached, the value is below every threshold. */
  lemma TierIsLargest(tiers: seq<(nat, seq<string>)>, v: int, scale: nat)
    requires Descending(tiers)
    ensures var k := TierIndex(tiers, v, scale);
      k < |tiers| ==>
        forall j :: 0 <= j < |tiers| && v >= tiers[j].0 * scale ==> tiers[j].0 <= tiers[k].0
    ensures TierIndex(tiers, v, scale) == |tiers| ==>
      forall j :: 0 <= j < |tiers| ==> v < tiers[j].0 * scale
  {
    var k := TierIndex(tiers, v, scale);
    forall j | 0 <= j < |tiers| && v >= tiers[j].0 * scale && k < |tiers|
      ensures tiers[j].0 <= tiers[k].0
    {
      assert !(j < k);
    }
  }

  /** The remarks of the type folder, when the table knows it, whatever
      the letter case of the type. */
  function TypePart(fileType: string): (r: seq<string>)
    ensures forall m :: m in r ==> exists t :: t in TypeRoasts && m in TypeRoasts[t]
    ensures r != [] <==> Lower(fileType) in TypeRoasts
    ensures Lower(fileType) in TypeRoasts ==> r == TypeRoasts[Lower(fileType)]
  {
    var key := Lower(fileType);
    if key in TypeRoasts then TypeRoasts[key] else []
  }

  /** The candidate list: keyword remarks, then the age tier, then the
      size tier, then the type remarks. */
  function Candidates(file: FileStats, currentYear: int): (r: seq<string>)
    ensures forall m :: m in r ==> m in TableRemarks()
  {
    KeywordPartFromTable(Lower(file.filename), FilenameRoasts);
    KeywordPart(Lower(file.filename), FilenameRoasts)
      + TierPart(AgeRoasts, AgeYears(file, currentYear), 1)
      + TierPart(SizeRoasts, file.sizeBytes, MegaByte)
      + TypePart(file.fileType)
  }

  /** Every remark of a keyed table. */
  function Remarks<K>(table: seq<(K, seq<string>)>): set<string>
  {
    set i, m | 0 <= i < |table| && m in table[i].1 :: m
  }

  /** Every remark of every table. */
  function TableRemarks(): set<string>
  {
    Remarks(FilenameRoasts) + Remarks(AgeRoasts) + Remarks(SizeRoasts)
      + (set t, m | t in TypeRoasts && m in TypeRoasts[t] :: m)
      + (set m | m in DefaultRoasts)
  }

  lemma KeywordPartFromTable(lowerName: string, table: seq<(string, seq<string>)>)
    ensures forall m :: m in KeywordPart(lowerName, table) ==> m in Remarks(table)
  {
    forall m | m in KeywordPart(lowerName, table)
      ensures m in Remarks(table)
    {
      KeywordPartMembers(lowerName, table, m);
    }
  }

  /** The age tier is the one of the largest threshold not above the age. */
  lemma AgeTier(file: FileStats, currentYear: int)
    ensures var age := AgeYears(file, currentYear);
      && (age >= 10 ==> TierPart(AgeRoasts, age, 1) == AgeRoasts[0].1)
      && (7 <= age < 10 ==> TierPart(AgeRoasts, age, 1) == AgeRoasts[1].1)
      && (5 <= age < 7 ==> TierPart(AgeRoasts, age, 1) == AgeRoasts[2].1)
      && (3 <= age < 5 ==> TierPart(AgeRoasts, age, 1) == AgeRoasts[3].1)
      && (age < 3 ==> TierPart(AgeRoasts, age, 1) == [])
  {
    var age := AgeYears(file, currentYear);
    var k := TierIndex(AgeRoasts, age, 1);
    TierIsLargest(AgeRoasts, age, 1);
    if k < 4 {
      assert AgeRoasts[k].0 <= age;
    }
  }

  /** A size tier applies from its threshold in MB, compared in bytes. */
  lemma SizeTier(file: FileStats)
    ensures var size := file.sizeBytes;
      && (size >= 500 * MegaByte ==> TierPart(SizeRoasts, size, MegaByte) == SizeRoasts[0].1)
      && (100 * MegaByte <= size < 500 * MegaByte ==> TierPart(SizeRoasts, size, MegaByte) == SizeRoasts[1].1)
      && (50 * MegaByte <= size < 100 * MegaByte ==> TierPart(SizeRoasts, size, MegaByte) == SizeRoasts[2].1)
      && (20 * MegaByte <= size < 50 * MegaByte ==> TierPart(SizeRoasts, size, MegaByte) == SizeRoasts[3].1)
      && (size < 20 * MegaByte ==> TierPart(SizeRoasts, size, MegaByte) == [])
  {
    var k := TierIndex(SizeRoasts, file.sizeBytes, MegaByte);
    TierIsLargest(SizeRoasts, file.sizeBytes, MegaByte);
    if k < 4 {
      assert SizeRoasts[k].0 * MegaByte <= file.sizeBytes;
    }
  }

  /** Every remark of a keyword found in the name is a keyword candidate. */
  lemma KeywordHit(lowerName: string, table: seq<(string, seq<string>)>, i: int)
    requires 0 <= i < |table| && Contains(lowerName, Lower(table[i].0))
    ensures forall m :: m in table[i].1 ==> m in KeywordPart(lowerName, table)
  {
    forall m | m in table[i].1
      ensures m in KeywordPart(lowerName, table)
    {
      KeywordPartMembers(lowerName, table, m);
    }
  }

  /** A name holding `最終版` also holds `最終`, so it collects the remarks
      of both keywords. */
  lemma FinalVersionAlsoFinal(file: FileStats, currentYear: int)
    requires Contains(Lower(file.filename), "最終版")
    ensures forall m :: m in FilenameRoasts[1].1 ==> m in Candidates(file, currentYear)
    ensures forall m :: m in FilenameRoasts[2].1 ==> m in Candidates(file, currentYear)
  {
    var name := Lower(file.filename);
    var final, finalVersion := FilenameRoasts[1].0, FilenameRoasts[2].0;
    assert final == "最終" && finalVersion == "最終版";
    assert Lower(final) == final && Lower(finalVersion) == finalVersion;
    assert OccursAt(finalVersion, final, 0);
    ContainsAt(finalVersion, final, 0);
    ContainsTransitive(name, finalVersion, final);
    KeywordHit(name, FilenameRoasts, 1);
    KeywordHit(name, FilenameRoasts, 2);
  }

  /** The keyword loop: every keyword whose lower-case form occurs in the
      name contributes all its remarks, in table order. */
  method CollectKeywords(lowerName: string, table: seq<(string, seq<string>)>) returns (part: seq<string>)
    ensures part == KeywordPart(lowerName, table)
  {
    part := [];
    var i := 0;
    while i < |table|
      invariant 0 <= i <= |table|
      invariant part == KeywordPart(lowerName, table[..i])
    {
      var (keyword, messages) := table[i];
      assert table[..i + 1][..i] == table[..i];
      if Contains(lowerName, Lower(keyword)) {
        part := part + messages;
      }
      i := i + 1;
    }
    assert table[..i] == table;
  }

  /** A tier loop: the remarks of the first threshold the value reaches,
      then `break`. */
  method CollectTier(tiers: seq<(nat, seq<string>)>, v: int, scale: nat) returns (part: seq<string>)
    ensures part == TierPart(tiers, v, scale)
  {
    part := [];
    var i := 0;
    while i < |tiers|
      invariant 0 <= i <= |tiers|
      invariant forall j :: 0 <= j < i ==> v < tiers[j].0 * scale
    {
      if v >= tiers[i].0 * scale {
        part := tiers[i].1;
        break;
      }
      i := i + 1;
    }
    assert i == TierIndex(tiers, v, scale);
  }

  /** Builds the candidate list as `generate_roast` does: every matching
      keyword, the first age tier reached, the first size tier reached,
      then the type remarks. */
  method RoastCandidates(file: FileStats, currentYear: int) returns (candidates: seq<string>)
    ensures candidates == Candidates(file, currentYear)
  {
    candidates := CollectKeywords(Lower(file.filename), FilenameRoasts);
    var aged := CollectTier(AgeRoasts, AgeYears(file, currentYear), 1);
    candidates := candidates + aged;
    var sized := CollectTier(SizeRoasts, file.sizeBytes, MegaByte);
    candidates := candidates + sized;
    var key := Lower(file.fileType);
    if key in TypeRoasts {
      candidates := candidates + TypeRoasts[key];
    }
  }

  /** `generate_roast`: one of the candidates when there are any, otherwise
      one of the defaults; `pick` stands for the random choice. The remark
      always comes from the tables. */
  method GenerateRoast(file: FileStats, currentYear: int, pick: nat) returns (roast: string)
    ensures var c := Candidates(file, currentYear);
      if |c| > 0 then roast in c else roast in DefaultRoasts
    ensures roast in TableRemarks()
  {
    var candidates := RoastCandidates(file, currentYear);
    if |candidates| > 0 {
      roast := candidates[pick % |candidates|];
    } else {
      roast := DefaultRoasts[pick % |DefaultRoasts|];
    }
  }
}
