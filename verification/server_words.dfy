/** The word lists the server draws from in online mode (the WORDS object of server.js). */
module ServerWords {
  import Words

  const Animals: Words.Category := Words.Category("animals", ["أسد", "نمر", "فيل", "زرافة", "قرد", "دب", "ذئب", "ثعلب", "أرنب", "غزال", "حصان", "جمل", "بقرة", "خروف", "دجاجة", "بطة", "نسر", "صقر", "بومة", "ببغاء", "تمساح", "سلحفاة", "ثعبان", "سحلية", "ضفدع", "دلفين", "حوت", "قرش", "أخطبوط", "فراشة", "نحلة", "عنكبوت", "عقرب", "نملة", "خنفساء", "فهد", "وحيد القرن", "فرس النهر", "باندا", "كوالا", "كنغر", "بطريق", "لاما", "طاووس", "حمار", "قط", "كلب", "حمامة", "غراب", "نعامة"])
  const Countries: Words.Category := Words.Category("countries", ["مصر", "السعودية", "الإمارات", "الكويت", "قطر", "البحرين", "عمان", "العراق", "الأردن", "لبنان", "سوريا", "فلسطين", "اليمن", "ليبيا", "تونس", "الجزائر", "المغرب", "السودان", "موريتانيا", "الصومال", "أمريكا", "بريطانيا", "فرنسا", "ألمانيا", "إيطاليا", "إسبانيا", "البرازيل", "الأرجنتين", "اليابان", "الصين", "كوريا", "الهند", "تركيا", "إيران", "روسيا", "كندا", "أستراليا", "المكسيك", "تايلاند", "ماليزيا"])
  const Food: Words.Category := Words.Category("food", ["كبسة", "مندي", "برياني", "شاورما", "فلافل", "حمص", "كشري", "محشي", "ملوخية", "مسخن", "منسف", "كنافة", "بقلاوة", "بسبوسة", "شوكولاتة", "آيس كريم", "كيك", "بيتزا", "برجر", "هوت دوج", "سوشي", "نودلز", "رز", "مكرونة", "سلطة", "شوربة", "سندويش", "فطيرة", "كرواسون", "دونات"])
  const Football: Words.Category := Words.Category("football", ["ميسي", "رونالدو", "نيمار", "مبابي", "هالاند", "صلاح", "بنزيما", "مودريتش", "كروس", "راموس", "بيكهام", "رونالدينيو", "زيدان", "هنري", "ماردونا", "بيليه", "نوير", "ليفاندوفسكي", "دي بروين", "فان دايك"])
  const Movies: Words.Category := Words.Category("movies", ["تيتانيك", "أفاتار", "الأسد الملك", "علاء الدين", "فروزن", "سبايدرمان", "باتمان", "سوبرمان", "هاري بوتر", "سيد الخواتم", "المنتقمون", "أيرون مان", "جوكر", "إنسبشن", "إنترستيلر", "ماتريكس", "جون ويك", "ستار وورز", "كارز", "نيمو"])
  const Celebrities: Words.Category := Words.Category("celebrities", ["محمد عبده", "عبدالمجيد عبدالله", "أم كلثوم", "فيروز", "كاظم الساهر", "نانسي عجرم", "تامر حسني", "عمرو دياب", "ذا روك", "ويل سميث", "ليوناردو دي كابريو", "إيلون ماسك", "بيل غيتس", "عادل إمام", "ناصر القصبي"])
  const Jobs: Words.Category := Words.Category("jobs", ["طبيب", "مهندس", "معلم", "محامي", "طيار", "رائد فضاء", "شرطي", "إطفائي", "طباخ", "حلاق", "نجار", "كهربائي", "سائق", "صيدلي", "مبرمج", "مصمم", "محاسب", "مخرج", "صحفي", "قاضي"])
  const Clothes: Words.Category := Words.Category("clothes", ["ثوب", "شماغ", "بشت", "عباية", "فستان", "تنورة", "قميص", "بنطلون", "جينز", "تيشيرت", "جاكيت", "معطف", "حذاء", "قبعة", "نظارة", "ساعة", "حقيبة", "بيجامة", "كرافتة", "شورت"])
  const Cartoons: Words.Category := Words.Category("cartoons", ["سبونج بوب", "توم وجيري", "كابتن ماجد", "المحقق كونان", "دراغون بول", "ناروتو", "ون بيس", "بن تن", "ميكي ماوس", "سكوبي دو", "بوكيمون", "لوني تونز", "غامبول", "باغز باني", "ليدي باغ"])
  const Games: Words.Category := Words.Category("games", ["ماينكرافت", "فورتنايت", "ببجي", "كول أوف ديوتي", "فيفا", "فالورانت", "أمونق أس", "روبلوكس", "ماريو", "زيلدا", "كلاش أوف كلانز", "جنشن إمباكت", "غود أوف وور", "أساسنز كريد", "ريزدنت إيفل"])
  const Things: Words.Category := Words.Category("things", ["هاتف", "لابتوب", "تلفزيون", "ثلاجة", "سيارة", "طائرة", "كاميرا", "ساعة", "نظارة", "حقيبة", "مفتاح", "قلم", "كتاب", "كرسي", "مرآة", "مظلة", "حذاء", "خاتم", "عطر", "سماعة"])
  const Random: Words.Category := Words.Category("random", ["مدرسة", "مستشفى", "مطار", "مسجد", "ملعب", "شاطئ", "جبل", "صحراء", "بحر", "جزيرة", "قمر", "كرة قدم", "شطرنج", "يوتيوب", "واتساب", "حفلة", "عرس", "عيد", "رمضان", "قوس قزح"])

  const Table: seq<Words.Category> := [Animals, Countries, Food, Football, Movies, Celebrities, Jobs, Clothes, Cartoons, Games, Things, Random]

  /**
   * The lists have a "random" category and no empty category, so getRandomWord always finds a word,
   * and no two categories share an id, so every `WORDS[id]` names one list.
   */
  lemma TableIsServerTable()
    ensures Words.ServerTable(Table)
    ensures forall i, j :: 0 <= i < j < |Table| ==> Table[i].id != Table[j].id
  {
    Words.LookupFinds(Table, Words.RandomId);
    assert Table[11].id == Words.RandomId;
    forall i | 0 <= i < |Table| ensures Table[i].words != [] {
      assert Table[i] in Table;
    }
  }
}
